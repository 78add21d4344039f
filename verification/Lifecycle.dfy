/** The lifecycle protocol of binding.cc as a state machine.

    Every JavaScript environment is a thread with a program counter.  One step of an environment is one section
    that holds `handles_mutex`, one call that leaves the binding (native shutdown, libjs), or one access to memory
    that only this environment touches, so a run may interleave environments wherever the code releases the lock.
    Native and libjs calls take their result from the step's argument: every pattern of failures is a run.
    A step that would read or free memory that is not allocated, or ask libjs to remove a teardown callback that
    is not pending, is a `Fault`. */
module Lifecycle {
  import opened Common
  import opened Handles

  datatype Hook = Hook(env: Env, kind: Kind, id: nat)
  datatype External = External(env: Env, addr: Addr, kind: Kind, id: nat)
  datatype Owner = Owner(env: Env, kind: Kind, addr: Addr, id: nat)

  datatype Event =
    | Issue(id: nat)
    | Opened(env: Env)                      // an environment pointer is in use again after its teardown
    | NodeCall(obj: Obj)
    | NodeStop(env: Env, obj: Obj, ok: bool, teardown: bool)
    | NodeFree(obj: Obj)
    | SignerCall(obj: Obj)
    | SignerStop(env: Env, obj: Obj, ok: bool, teardown: bool)
    | SignerFree(obj: Obj)

  // The entry points that act on a handle; NodeUse and SignerUse stand for every other native call, all of which
  // go through require_sdk_node and require_signer.
  datatype Op = NodeShutdown | NodeDestroy | NodeUse | SignerShutdown | SignerDestroy | SignerUse

  /** A call of the native library. */
  ghost predicate IsCall(ev: Event) {
    !ev.Issue? && !ev.Opened?
  }

  datatype Pc =
    | Idle
    | Registering(ref: Addr)                // wrap: malloc succeeded
    | Hooking(ref: Addr)                    // wrap: registered, about to add the teardown callback
    | Exporting(ref: Addr)                  // wrap: about to create the external
    | UndoUnlinking(ref: Addr)              // wrap failed: unregister_handle
    | UndoStopping(ref: Addr)               // wrap failed: stop and free the native object
    | Freeing(ref: Addr)                    // free(ref)
    | Unlinking(ref: Addr)                  // unregister_handle, then free(ref)
    | NodeTeardown(id: nat)
    | NodeTeardownStopping(ref: Addr)
    | SignerTeardown(id: nat)
    | Scanning(signer: Addr, cursor: nat, stopped: bool)
    | DrainFinding(signer: Addr, id: nat, stopped: bool)
    | DrainStopping(signer: Addr, id: nat, node: Addr, stopped: bool)
    | DrainUnlinking(signer: Addr, id: nat, node: Addr, stopped: bool)
    | DrainFreeing(signer: Addr, id: nat, node: Addr, stopped: bool)
    | SignerStopping(ref: Addr)
    | Finalizing(x: External)
    | FinalizingNode(ref: Addr)
    | FinalizingSigner(ref: Addr)
    | JsLookup(op: Op, x: External)
    | JsActing(op: Op, ref: Addr)

  datatype State = State(
    word: nat,                   // one more than UINTPTR_MAX
    mem: Memory,                 // the wrappers that are allocated
    list: seq<Addr>,             // the registry, from its head
    nextId: nat,                 // next_handle_id
    hooks: set<Hook>,            // teardown callbacks pending in libjs
    live: set<External>,         // externals JavaScript can still reach
    wrapped: map<Obj, Owner>,    // native objects that were wrapped successfully, and by which wrapper
    lost: set<Obj>,              // native objects freed because malloc failed
    nextObj: Obj,                // the next native object a constructor returns
    trace: seq<Event>,
    pcs: map<Env, Pc>,
    closing: set<Env>,           // environments that run no JavaScript any more
    first: map<Env, nat>)        // where a pointer was in use before: the least identity of its environment now

  datatype Outcome = Next(s: State) | Fault

  datatype Choice =
    | Wrap(kind: Kind, at: Option<Addr>)    // a native constructor returned Ok; malloc gives `at`
    | Close                                 // the environment begins its teardown
    | Reopen                                // its teardown is over and its pointer is given to a new environment
    | Fire(hook: Hook)                      // libjs runs a pending teardown callback
    | Collect(x: External)                  // libjs runs a finalizer, possibly late or again
    | Call(op: Op, x: External)
    | Resume(ok: bool)                      // the environment continues the operation it is in

  ghost function PcOf(s: State, e: Env): Pc {
    if e in s.pcs then s.pcs[e] else Idle
  }

  ghost function FirstOf(s: State, e: Env): nat {
    if e in s.first then s.first[e] else 0
  }

  ghost function Goto(s: State, e: Env, pc: Pc): State {
    s.(pcs := s.pcs[e := pc])
  }

  ghost function Init(word: nat): State {
    State(word, map[], [], 1, {}, {}, map[], {}, 0, [], map[], {}, map[])
  }

  function HookOf(w: Wrapper): Hook {
    Hook(w.env, w.kind, w.id)
  }

  ghost function OpKind(op: Op): Kind {
    if op.NodeShutdown? || op.NodeDestroy? || op.NodeUse? then Node else Signer
  }

  // ---------- What happens to one wrapper ----------

  /** shutdown_and_free_sdk_node. */
  ghost function StoppedAndFreed(w: Wrapper, ok: bool): Wrapper {
    if w.freed then w
    else if w.attempted || ok then w.(attempted := true, freed := true)
    else w
  }

  ghost function StopEvents(w: Wrapper, ok: bool, teardown: bool): seq<Event> {
    if w.freed then []
    else if w.attempted then [NodeFree(w.obj)]
    else if ok then [NodeStop(w.env, w.obj, true, teardown), NodeFree(w.obj)]
    else [NodeStop(w.env, w.obj, false, teardown)]
  }

  /** The wrapper and the native calls after an entry point that `owns_handle` admitted. */
  ghost function Acted(op: Op, w: Wrapper, ok: bool): Wrapper {
    match op
    case NodeShutdown => if w.freed || w.attempted then w else w.(attempted := ok)
    case NodeDestroy => StoppedAndFreed(w, ok)
    case SignerDestroy => w.(freed := true)
    case _ => w
  }

  ghost function ActEvents(op: Op, w: Wrapper, ok: bool): seq<Event> {
    match op
    case NodeShutdown => if w.freed || w.attempted then [] else [NodeStop(w.env, w.obj, ok, false)]
    case NodeDestroy => StopEvents(w, ok, false)
    case NodeUse => if w.freed || w.attempted then [] else [NodeCall(w.obj)]
    case SignerShutdown => if w.freed then [] else [SignerStop(w.env, w.obj, ok, false)]
    case SignerDestroy => if w.freed then [] else [SignerFree(w.obj)]
    case SignerUse => if w.freed then [] else [SignerCall(w.obj)]
  }

  /** What undoing a failed wrap does to the native object: a node is stopped first, a signer is only freed. */
  ghost function Undone(w: Wrapper, ok: bool): Wrapper {
    if w.kind == Node then StoppedAndFreed(w, ok) else w.(freed := true)
  }

  ghost function UndoEvents(w: Wrapper, ok: bool): seq<Event> {
    if w.kind == Node then StopEvents(w, ok, false) else [SignerFree(w.obj)]
  }

  ghost function SignerTeardownEvents(w: Wrapper, ok: bool): seq<Event> {
    if w.freed then []
    else if ok then [SignerStop(w.env, w.obj, true, true), SignerFree(w.obj)]
    else [SignerStop(w.env, w.obj, false, true)]
  }

  // ---------- Steps ----------

  /** Store `w` in its wrapper, append what the native library saw, and move on. */
  ghost function Store(s: State, e: Env, ref: Addr, w: Wrapper, events: seq<Event>, pc: Pc): State {
    Goto(s.(mem := s.mem[ref := w], trace := s.trace + events), e, pc)
  }

  ghost function Unlink(s: State, e: Env, ref: Addr, pc: Pc): Outcome {
    Next(Goto(s.(list := Remove(s.list, ref)), e, pc))
  }

  ghost function Release(s: State, e: Env, ref: Addr, pc: Pc): Outcome {
    if ref !in s.mem then Fault else Next(Goto(s.(mem := s.mem - {ref}), e, pc))
  }

  ghost function Unhook(s: State, hook: Hook): Outcome {
    if hook !in s.hooks then Fault else Next(s.(hooks := s.hooks - {hook}))
  }

  /** The next step of a wrap_sdk_node or wrap_signer in progress. */
  ghost function AdvanceWrap(s: State, e: Env, pc: Pc, ok: bool): Outcome
    requires pc.Registering? || pc.Hooking? || pc.Exporting? || pc.UndoStopping?
    requires s.word > 0
  {
    if pc.ref !in s.mem then Fault else
    var w := s.mem[pc.ref];
    match pc
    case Registering(a) =>
      if s.nextId == 0 then Next(Goto(s, e, UndoStopping(a)))
      else Next(Store(s.(list := [a] + s.list, nextId := Successor(s.nextId, s.word)),
                      e, a, w.(id := s.nextId), [Issue(s.nextId)], Hooking(a)))
    case Hooking(a) =>
      if ok then Next(Store(s.(hooks := s.hooks + {HookOf(w)}), e, a, w.(hooked := true), [], Exporting(a)))
      else Next(Goto(s, e, UndoUnlinking(a)))
    case Exporting(a) =>
      if ok then Next(Goto(s.(live := s.live + {External(e, a, w.kind, w.id)},
                              wrapped := s.wrapped[w.obj := Owner(e, w.kind, a, w.id)]), e, Idle))
      else
        var u := Unhook(s, HookOf(w));
        if u.Fault? then Fault else Next(Goto(u.s, e, UndoUnlinking(a)))
    case UndoStopping(a) =>
      Next(Store(s, e, a, Undone(w, ok), UndoEvents(w, ok), Freeing(a)))
  }

  /** The next step of sdk_node_teardown, or of signer_teardown outside its drain of the nodes. */
  ghost function AdvanceTeardown(s: State, e: Env, pc: Pc, ok: bool): Outcome
    requires pc.NodeTeardown? || pc.NodeTeardownStopping? || pc.SignerTeardown? || pc.SignerStopping?
    requires Resident(s.list, s.mem)
  {
    match pc
    case NodeTeardown(id) =>
      var found := FindTeardown(s.list, s.mem, id, Node);
      Next(Goto(s, e, if found.Some? then NodeTeardownStopping(found.value) else Idle))
    case NodeTeardownStopping(a) =>
      if a !in s.mem then Fault else
      var w := s.mem[a].(hooked := false);
      var w' := StoppedAndFreed(w, ok);
      Next(Store(s, e, a, w', StopEvents(w, ok, true), if w'.freed then Unlinking(a) else Idle))
    case SignerTeardown(id) =>
      var found := FindTeardown(s.list, s.mem, id, Signer);
      if found.None? then Next(Goto(s, e, Idle))
      else Next(Store(s, e, found.value, s.mem[found.value].(hooked := false), [], Scanning(found.value, 0, true)))
    case SignerStopping(a) =>
      if a !in s.mem then Fault else
      var w := s.mem[a];
      if w.freed || ok then Next(Store(s, e, a, w.(freed := true), SignerTeardownEvents(w, ok), Unlinking(a)))
      else Next(Store(s, e, a, w, SignerTeardownEvents(w, ok), Idle))
  }

  /** Where the drain goes on after its scan found node `id`, or none when it is 0. */
  ghost function Scanned(signer: Addr, id: nat, stopped: bool): Pc {
    if id != 0 then DrainFinding(signer, id, stopped) else if stopped then SignerStopping(signer) else Idle
  }

  /** The next step of shutdown_environment_nodes, called from the teardown of `pc.signer`. */
  ghost function AdvanceDrain(s: State, e: Env, pc: Pc, ok: bool): Outcome
    requires pc.Scanning? || pc.DrainFinding? || pc.DrainStopping? || pc.DrainUnlinking? || pc.DrainFreeing?
    requires Resident(s.list, s.mem)
  {
    match pc
    case Scanning(signer, cursor, stopped) =>
      if signer !in s.mem then Fault else
      Next(Goto(s, e, Scanned(signer, NextNode(s.list, s.mem, s.mem[signer].env, cursor), stopped)))
    case DrainFinding(signer, id, stopped) =>
      var found := FindTeardown(s.list, s.mem, id, Node);
      Next(Goto(s, e, if found.Some? then DrainStopping(signer, id, found.value, stopped)
                      else Scanning(signer, id, stopped)))
    case DrainStopping(signer, id, node, stopped) =>
      if node !in s.mem then Fault else
      var w := s.mem[node];
      var w' := StoppedAndFreed(w, ok);
      Next(Store(s, e, node, w', StopEvents(w, ok, true),
                 if w'.freed then DrainUnlinking(signer, id, node, stopped) else Scanning(signer, id, false)))
    case DrainUnlinking(signer, id, node, stopped) =>
      Unlink(s, e, node, DrainFreeing(signer, id, node, stopped))
    case DrainFreeing(signer, id, node, stopped) =>
      Release(s, e, node, Scanning(signer, id, stopped))
  }

  /** The next step of sdk_node_destructor or signer_destructor. */
  ghost function AdvanceFinalizer(s: State, e: Env, pc: Pc, ok: bool): Outcome
    requires pc.Finalizing? || pc.FinalizingNode? || pc.FinalizingSigner?
    requires Resident(s.list, s.mem)
  {
    match pc
    case Finalizing(x) =>
      var found := FindFinalizer(s.list, s.mem, e, x.addr, x.id, x.kind);
      Next(Goto(s, e, if found.None? then Idle
                      else if x.kind == Node then FinalizingNode(found.value) else FinalizingSigner(found.value)))
    case FinalizingNode(a) =>
      if a !in s.mem then Fault else
      var w := s.mem[a];
      var w' := StoppedAndFreed(w, ok);
      if !w'.freed then Next(Store(s, e, a, w', StopEvents(w, ok, false), Idle))
      else if !w.hooked then Next(Store(s, e, a, w', StopEvents(w, ok, false), Unlinking(a)))
      else
        var u := Unhook(s, HookOf(w));
        if u.Fault? then Fault
        else Next(Store(u.s, e, a, w'.(hooked := false), StopEvents(w, ok, false), Unlinking(a)))
    case FinalizingSigner(a) =>
      if a !in s.mem then Fault else
      var w := s.mem[a];
      var u := if w.hooked then Unhook(s, HookOf(w)) else Next(s);
      if u.Fault? then Fault
      else Next(Store(u.s, e, a, w.(freed := true, hooked := false), ActEvents(SignerDestroy, w, ok), Unlinking(a)))
  }

  /** The next step of an entry point called from JavaScript. */
  ghost function AdvanceCall(s: State, e: Env, pc: Pc, ok: bool): Outcome
    requires pc.JsLookup? || pc.JsActing?
    requires Resident(s.list, s.mem)
  {
    match pc
    case JsLookup(op, x) =>
      Next(Goto(s, e, if Owns(s.list, s.mem, e, x.addr, OpKind(op)) then JsActing(op, x.addr) else Idle))
    case JsActing(op, a) =>
      if a !in s.mem then Fault else
      Next(Store(s, e, a, Acted(op, s.mem[a], ok), ActEvents(op, s.mem[a], ok), Idle))
  }

  ghost function Advance(s: State, e: Env, ok: bool): Outcome
    requires s.word > 0 && Resident(s.list, s.mem)
  {
    var pc := PcOf(s, e);
    if pc.Idle? then Next(s)
    else if pc.Registering? || pc.Hooking? || pc.Exporting? || pc.UndoStopping? then AdvanceWrap(s, e, pc, ok)
    else if pc.UndoUnlinking? then Unlink(s, e, pc.ref, UndoStopping(pc.ref))
    else if pc.Unlinking? then Unlink(s, e, pc.ref, Freeing(pc.ref))
    else if pc.Freeing? then Release(s, e, pc.ref, Idle)
    else if pc.NodeTeardown? || pc.NodeTeardownStopping? || pc.SignerTeardown? || pc.SignerStopping? then
      AdvanceTeardown(s, e, pc, ok)
    else if pc.Finalizing? || pc.FinalizingNode? || pc.FinalizingSigner? then AdvanceFinalizer(s, e, pc, ok)
    else if pc.JsLookup? || pc.JsActing? then AdvanceCall(s, e, pc, ok)
    else AdvanceDrain(s, e, pc, ok)
  }

  /** A new environment at the pointer of one whose teardown is over. Nothing that JavaScript held is reachable any
      more; what teardown retained is still registered under that pointer, and finalizers may still come for it. */
  ghost function ReopenedState(s: State, e: Env): State {
    s.(closing := s.closing - {e},
       live := (set x | x in s.live && x.env != e),
       first := s.first[e := if s.nextId == 0 then s.word else s.nextId],
       trace := s.trace + [Opened(e)])
  }

  /** An environment that is not inside the binding may begin something; a choice that is not possible does nothing. */
  ghost function Begin(s: State, e: Env, c: Choice): State {
    match c
    case Wrap(kind, at) =>
      if e in s.closing then s
      else if at.None? then
        s.(nextObj := s.nextObj + 1, lost := s.lost + {s.nextObj},
           trace := s.trace + [if kind == Node then NodeFree(s.nextObj) else SignerFree(s.nextObj)])
      else if at.value in s.mem || at.value == NULL then s
      else Goto(s.(nextObj := s.nextObj + 1,
                   mem := s.mem[at.value := Wrapper(e, kind, 0, s.nextObj, false, false, false)]),
                e, Registering(at.value))
    case Close => s.(closing := s.closing + {e})
    case Reopen => if e !in s.closing || (exists h :: h in s.hooks && h.env == e) then s else ReopenedState(s, e)
    case Fire(h) =>
      if e !in s.closing || h !in s.hooks || h.env != e then s
      else Goto(s.(hooks := s.hooks - {h}), e, if h.kind == Node then NodeTeardown(h.id) else SignerTeardown(h.id))
    case Collect(x) => if x.env != e then s else Goto(s.(live := s.live - {x}), e, Finalizing(x))
    case Call(op, x) => if e in s.closing || x !in s.live || x.env != e then s else Goto(s, e, JsLookup(op, x))
    case Resume(_) => s
  }

  /** One step of environment `e`.  Walking a list with an entry that is no longer allocated is a Fault. */
  ghost function Step(s: State, e: Env, c: Choice): (o: Outcome)
    requires s.word > 0
    ensures o.Next? ==> o.s.word == s.word
  {
    if !Resident(s.list, s.mem) then Fault
    else if c.Resume? then Advance(s, e, c.ok)
    else if PcOf(s, e).Idle? then Next(Begin(s, e, c))
    else Next(s)
  }

  datatype Move = Move(env: Env, choice: Choice)

  ghost function Run(s: State, moves: seq<Move>): (o: Outcome)
    requires s.word > 0
    ensures o.Next? ==> o.s.word == s.word
    decreases |moves|
  {
    if moves == [] then Next(s)
    else
      var o := Step(s, moves[0].env, moves[0].choice);
      if o.Fault? then Fault else Run(o.s, moves[1..])
  }
}
