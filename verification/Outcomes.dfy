/** What each operation of the registry leaves when it is not interrupted. */
module HandleOutcomes {
  import opened Common
  import opened Handles
  import opened Lifecycle

  /** Something another environment does to the registry while this one does not hold the lock. */
  datatype Foreign = Enter(at: Addr, env: Env, kind: Kind, obj: Obj) | Leave(at: Addr)

  datatype Entry = Entry(addr: Addr, wrapper: Wrapper)

  /** What other environments did to the registry, and what becomes of their entries. */
  datatype Effect = Entered(entry: Entry) | Left(addr: Addr)

  function Address(r: Option<Addr>): Addr {
    if r.Some? then r.value else NULL
  }

  /** What the registry, libjs and the native library have seen. */
  datatype Native = Native(mem: Memory, list: seq<Addr>, hooks: set<Hook>, trace: seq<Event>, nextId: nat)

  ghost predicate Sound(n: Native) {
    Resident(n.list, n.mem) && Descending(n.list, n.mem) && NULL !in n.list
  }

  ghost function Gone(n: Native, a: Addr, hooks: set<Hook>, events: seq<Event>): Native {
    Native(n.mem - {a}, Remove(n.list, a), hooks, n.trace + events, n.nextId)
  }

  ghost function Kept(n: Native, a: Addr, w: Wrapper, events: seq<Event>): Native {
    Native(n.mem[a := w], n.list, n.hooks, n.trace + events, n.nextId)
  }

  ghost predicate Own(mem: Memory, env: Env, a: Addr) {
    a in mem && mem[a].env == env
  }

  ghost function NodeTornDown(n: Native, id: nat, ok: bool): Native
    requires Resident(n.list, n.mem)
  {
    var found := FindTeardown(n.list, n.mem, id, Node);
    if found.None? then n else
    var w := n.mem[found.value].(hooked := false);
    if StoppedAndFreed(w, ok).freed then Gone(n, found.value, n.hooks, StopEvents(w, ok, true))
    else Kept(n, found.value, w, StopEvents(w, ok, true))
  }

  /** The counter after an attempt to register: exhausted it stays 0. */
  function Counted(id: nat, word: nat): nat
    requires word > 0
  {
    if id == 0 then 0 else Successor(id, word)
  }

  function Unwrapped(env: Env, kind: Kind, obj: Obj): Wrapper {
    Wrapper(env, kind, 0, obj, false, false, false)
  }

  /** A registered wrapper with its callback pending. */
  ghost function Wrapped(n: Native, env: Env, kind: Kind, obj: Obj, x: External, word: nat): Native
    requires word > 0
  {
    Native(n.mem[x.addr := Wrapper(env, kind, x.id, obj, false, false, true)], [x.addr] + n.list,
           n.hooks + {Hook(env, kind, x.id)}, n.trace, Successor(n.nextId, word))
  }

  /** wrap_sdk_node and wrap_signer with memory for the wrapper: on failure all is as before, except that the native
      object was given up and that an identity may have been used. */
  ghost function WrapOutcome(n: Native, env: Env, kind: Kind, obj: Obj, at: Addr, hookOk: bool, exportOk: bool,
                             stopOk: bool, word: nat): Native
    requires word > 0
  {
    if n.nextId != 0 && hookOk && exportOk then Wrapped(n, env, kind, obj, External(env, at, kind, n.nextId), word)
    else n.(nextId := Counted(n.nextId, word), trace := n.trace + UndoEvents(Unwrapped(env, kind, obj), stopOk))
  }

  /** A wrapper whose callback is pending is flagged, as every registered one is in the state machine. */
  ghost predicate TakesBack(hooks: set<Hook>, mem: Memory, a: Addr) {
    a in mem && (HookOf(mem[a]) in hooks ==> mem[a].hooked)
  }

  ghost function Unhooked(hooks: set<Hook>, w: Wrapper): set<Hook> {
    if w.hooked then hooks - {HookOf(w)} else hooks
  }

  ghost function NodeFinalized(n: Native, env: Env, data: Addr, hint: nat, ok: bool): Native
    requires Resident(n.list, n.mem)
  {
    var found := FindFinalizer(n.list, n.mem, env, data, hint, Node);
    if found.None? then n else
    var w := n.mem[data];
    if StoppedAndFreed(w, ok).freed then Gone(n, data, Unhooked(n.hooks, w), StopEvents(w, ok, false))
    else Kept(n, data, w, StopEvents(w, ok, false))
  }

  /** A node wrapper is gone if its native object was freed, now or before; otherwise it is kept, as `kept`. */
  ghost predicate GoneOrKept(n: Native, r: Native, a: Addr, kept: Wrapper, ok: bool, teardown: bool)
    requires a in n.mem
  {
    var w := n.mem[a];
    && r.mem == (if w.freed || w.attempted || ok then n.mem - {a} else n.mem[a := kept])
    && (forall b :: b in r.list <==> b in n.list && (b != a || !(w.freed || w.attempted || ok)))
    && r.trace == n.trace + (if w.freed then [] else if w.attempted then [NodeFree(w.obj)]
                             else if ok then [NodeStop(w.env, w.obj, true, teardown), NodeFree(w.obj)]
                             else [NodeStop(w.env, w.obj, false, teardown)])
  }

  lemma TornDownIs(n: Native, id: nat, ok: bool, a: Addr)
    requires Sound(n) && a in n.list && n.mem[a].id == id && n.mem[a].kind == Node
    ensures GoneOrKept(n, NodeTornDown(n, id, ok), a, n.mem[a].(hooked := false), ok, true)
    ensures NodeTornDown(n, id, ok).hooks == n.hooks
  {
    FoundNode(n.list, n.mem, id, a, Address(FindTeardown(n.list, n.mem, id, Node)));
    RemoveExactly(n.list, n.mem, a);
  }

  lemma FinalizedIs(n: Native, env: Env, data: Addr, hint: nat, ok: bool)
    requires Sound(n) && Owns(n.list, n.mem, env, data, Node) && n.mem[data].id == hint
    ensures var r := NodeFinalized(n, env, data, hint, ok);
      && GoneOrKept(n, r, data, n.mem[data], ok, false)
      && (data !in r.mem && TakesBack(n.hooks, n.mem, data) ==> r.hooks == n.hooks - {Hook(env, Node, hint)})
      && (data in r.mem ==> r.hooks == n.hooks)
  {
    RemoveExactly(n.list, n.mem, data);
  }

  ghost function SignerFinalized(n: Native, env: Env, data: Addr, hint: nat): Native
    requires Resident(n.list, n.mem)
  {
    var found := FindFinalizer(n.list, n.mem, env, data, hint, Signer);
    if found.None? then n else
    var w := n.mem[data];
    Gone(n, data, Unhooked(n.hooks, w), if w.freed then [] else [SignerFree(w.obj)])
  }

  /** What other environments do in one round of a drain: before its scan, before the node is looked up again, before it
      is unlinked, and before its wrapper is freed.  A round is known by the cursor it starts from. */
  datatype Round = Round(scan: seq<Foreign>, find: seq<Foreign>, unlink: seq<Foreign>, free: seq<Foreign>)

  ghost predicate Silent(others: nat -> Round) {
    forall n :: others(n) == Round([], [], [], [])
  }

  ghost predicate Drained(w: Wrapper, stops: nat -> bool) {
    StoppedAndFreed(w, stops(w.id)).freed
  }

  /** One node stopped by teardown, and released if that freed it. */
  ghost function Served(n: Native, a: Addr, ok: bool): Native
    requires a in n.mem
  {
    var w := n.mem[a];
    if StoppedAndFreed(w, ok).freed then Gone(n, a, n.hooks, StopEvents(w, ok, true))
    else Kept(n, a, w, StopEvents(w, ok, true))
  }

  ghost function NodesAfter(n: Native, env: Env, cursor: nat): set<Addr> {
    set a | a in n.list && a in n.mem && IsNode(n.mem[a], env) && n.mem[a].id > cursor
  }

  lemma FoundNode(list: seq<Addr>, mem: Memory, id: nat, a: Addr, found: Addr)
    requires Resident(list, mem) && Descending(list, mem) && a in list && mem[a].id == id && mem[a].kind == Node
    requires found == Address(FindTeardown(list, mem, id, Node))
    ensures found == a
  {
    SameIdentity(list, mem, FindTeardown(list, mem, id, Node).value, a);
  }

  lemma ServedSound(n: Native, a: Addr, ok: bool)
    requires Sound(n) && a in n.list
    ensures Sound(Served(n, a, ok))
  {
    RemoveExactly(n.list, n.mem, a);
  }

  lemma ServedSmaller(n: Native, env: Env, cursor: nat, a: Addr, ok: bool)
    requires Sound(n) && a in n.list && IsNode(n.mem[a], env) && n.mem[a].id > cursor
    ensures Sound(Served(n, a, ok))
    ensures |NodesAfter(Served(n, a, ok), env, n.mem[a].id)| < |NodesAfter(n, env, cursor)|
  {
    ServedSound(n, a, ok);
    var after, before := NodesAfter(Served(n, a, ok), env, n.mem[a].id), NodesAfter(n, env, cursor);
    RemoveExactly(n.list, n.mem, a);
    assert after <= before - {a};
    assert before == before - {a} + {a};
    FewerMembers(after, before - {a});
  }

  lemma FewerMembers<T>(a: set<T>, b: set<T>)
    requires a <= b
    ensures |a| <= |b|
  {
    assert b == a + (b - a);
  }

  lemma FoundNext(n: Native, env: Env, cursor: nat)
    requires Sound(n) && NextNode(n.list, n.mem, env, cursor) != 0
    ensures var id := NextNode(n.list, n.mem, env, cursor);
      var a := Address(FindTeardown(n.list, n.mem, id, Node));
      id > cursor && a in n.list && a in n.mem && IsNode(n.mem[a], env) && n.mem[a].id == id
  {
    var id := NextNode(n.list, n.mem, env, cursor);
    var b :| b in n.list && IsNode(n.mem[b], env) && n.mem[b].id == id;
    FoundNode(n.list, n.mem, id, b, Address(FindTeardown(n.list, n.mem, id, Node)));
  }

  datatype Drainage = Drainage(n: Native, all: bool)

  ghost function Also(stopped: bool, d: Drainage): Drainage {
    Drainage(d.n, stopped && d.all)
  }

  /** shutdown_environment_nodes from a cursor on: the nodes in ascending order, and whether all of them were freed. */
  ghost function Drain(n: Native, env: Env, cursor: nat, stops: nat -> bool): Drainage
    requires Sound(n)
    decreases |NodesAfter(n, env, cursor)|
  {
    var id := NextNode(n.list, n.mem, env, cursor);
    if id == 0 then Drainage(n, true)
    else
      FoundNext(n, env, cursor);
      var a := Address(FindTeardown(n.list, n.mem, id, Node));
      ServedSmaller(n, env, cursor, a, stops(id));
      Also(Drained(n.mem[a], stops), Drain(Served(n, a, stops(id)), env, id, stops))
  }

  lemma DrainUnfolds(n: Native, env: Env, cursor: nat, stops: nat -> bool, a: Addr)
    requires Sound(n) && a in n.list && IsNode(n.mem[a], env)
    requires n.mem[a].id == NextNode(n.list, n.mem, env, cursor) != 0
    ensures Sound(Served(n, a, stops(n.mem[a].id)))
    ensures Drain(n, env, cursor, stops) ==
      Also(Drained(n.mem[a], stops), Drain(Served(n, a, stops(n.mem[a].id)), env, n.mem[a].id, stops))
  {
    FoundNode(n.list, n.mem, n.mem[a].id, a, Address(FindTeardown(n.list, n.mem, n.mem[a].id, Node)));
    FoundNext(n, env, cursor);
    ServedSmaller(n, env, cursor, a, stops(n.mem[a].id));
  }

  /** signer_teardown once the nodes of its environment were drained. */
  ghost function SignerRevoked(d: Drainage, a: Addr, w: Wrapper, ok: bool): Native {
    if !d.all then d.n
    else if w.freed || ok then Gone(d.n, a, d.n.hooks, SignerTeardownEvents(w, ok))
    else d.n.(trace := d.n.trace + SignerTeardownEvents(w, ok))
  }

  lemma UnflaggedSound(n: Native, a: Addr)
    requires Sound(n) && a in n.list
    ensures Sound(n.(mem := n.mem[a := n.mem[a].(hooked := false)]))
  {
  }

  /** signer_teardown. */
  ghost function SignerTornDown(n: Native, id: nat, stops: nat -> bool, ok: bool): Native
    requires Sound(n)
  {
    var found := FindTeardown(n.list, n.mem, id, Signer);
    if found.None? then n
    else
      var a, w := found.value, n.mem[found.value].(hooked := false);
      UnflaggedSound(n, a);
      SignerRevoked(Drain(n.(mem := n.mem[a := w]), w.env, 0, stops), a, w, ok)
  }

  /** Where a drain is: its state, its cursor, and whether all nodes so far were freed. */
  datatype Point = Point(n: Native, cursor: nat, all: bool)

  ghost function Advanced(p: Point, env: Env, stops: nat -> bool): (r: Point)
    requires Sound(p.n)
    ensures Sound(r.n)
  {
    var id := NextNode(p.n.list, p.n.mem, env, p.cursor);
    if id == 0 then p
    else
      FoundNext(p.n, env, p.cursor);
      var a := Address(FindTeardown(p.n.list, p.n.mem, id, Node));
      ServedSmaller(p.n, env, p.cursor, a, stops(id));
      Point(Served(p.n, a, stops(id)), id, p.all && Drained(p.n.mem[a], stops))
  }

  lemma AdvancedIs(p: Point, env: Env, stops: nat -> bool, a: Addr)
    requires Sound(p.n) && a in p.n.list && IsNode(p.n.mem[a], env)
    requires p.n.mem[a].id == NextNode(p.n.list, p.n.mem, env, p.cursor) != 0
    ensures var w := p.n.mem[a];
      Advanced(p, env, stops) == Point(Served(p.n, a, stops(w.id)), w.id, p.all && Drained(w, stops))
  {
    FoundNode(p.n.list, p.n.mem, p.n.mem[a].id, a, Address(FindTeardown(p.n.list, p.n.mem, p.n.mem[a].id, Node)));
  }

  /** What a drain comes to from here. */
  ghost function Rest(p: Point, env: Env, stops: nat -> bool): Drainage
    requires Sound(p.n)
  {
    Also(p.all, Drain(p.n, env, p.cursor, stops))
  }

  lemma AdvancedRest(p: Point, env: Env, stops: nat -> bool)
    requires Sound(p.n)
    ensures Rest(Advanced(p, env, stops), env, stops) == Rest(p, env, stops)
  {
    var id := NextNode(p.n.list, p.n.mem, env, p.cursor);
    if id != 0 {
      FoundNext(p.n, env, p.cursor);
      DrainUnfolds(p.n, env, p.cursor, stops, Address(FindTeardown(p.n.list, p.n.mem, id, Node)));
    }
  }

  /** From `p` a drain comes to `d`. */
  ghost predicate Comes(p: Point, env: Env, stops: nat -> bool, d: Drainage) {
    Sound(p.n) && Rest(p, env, stops) == d
  }

  lemma ComesOn(p: Point, env: Env, stops: nat -> bool, d: Drainage)
    requires Comes(p, env, stops, d)
    ensures Comes(Advanced(p, env, stops), env, stops, d)
  {
    AdvancedRest(p, env, stops);
  }

  lemma ComesEnd(p: Point, env: Env, stops: nat -> bool, d: Drainage)
    requires Comes(p, env, stops, d) && NextNode(p.n.list, p.n.mem, env, p.cursor) == 0
    ensures d == Drainage(p.n, p.all)
  {
  }

  lemma StoredTwice(mem: Memory, a: Addr, v: Wrapper, w: Wrapper)
    ensures mem[a := v][a := w] == mem[a := w]
  {
  }

  lemma StoredThenFreed(mem: Memory, a: Addr, v: Wrapper, w: Wrapper)
    requires a in mem
    ensures mem[a := v] - {a} == mem - {a} && mem[a := v][a := w] - {a} == mem - {a}
  {
  }
}
