/** What every reachable state of the lifecycle protocol satisfies, stated one environment at a time. */
module LifecycleInvariant {
  import opened Handles
  import opened Lifecycle

  // ---------- The registry ----------

  ghost predicate Issued(s: State, id: nat) {
    0 < id < s.word && (s.nextId != 0 ==> id < s.nextId)
  }

  ghost predicate RegistryInv(s: State) {
    && 1 < s.word && s.nextId < s.word
    && NULL !in s.mem
    && Resident(s.list, s.mem)
    && Descending(s.list, s.mem)
    && forall a :: a in s.list ==> Issued(s, s.mem[a].id)
  }

  /** A pending callback carries an identity; if that identity is registered, it is the callback of that entry. */
  ghost predicate HooksInv(s: State)
    requires Resident(s.list, s.mem)
  {
    && (forall h :: h in s.hooks ==> Issued(s, h.id))
    && (forall h, a :: h in s.hooks && a in s.list && s.mem[a].id == h.id ==> HookOf(s.mem[a]) == h && s.mem[a].hooked)
  }

  // ---------- One environment ----------

  ghost predicate Mine(s: State, e: Env, a: Addr) {
    a in s.mem && s.mem[a].env == e
  }

  ghost predicate Listed(s: State, e: Env, a: Addr, kind: Kind) {
    Mine(s, e, a) && a in s.list && s.mem[a].kind == kind
  }

  ghost predicate NoLive(s: State, e: Env, a: Addr) {
    forall x :: x in s.live && x.env == e ==> x.addr != a
  }

  ghost predicate NoNodes(s: State, e: Env) {
    forall a :: Mine(s, e, a) ==> s.mem[a].kind == Signer
  }

  ghost predicate NodesAbove(s: State, e: Env, cursor: nat) {
    forall a :: Mine(s, e, a) && s.mem[a].kind == Node ==> s.mem[a].id > cursor
  }

  ghost predicate IsTeardownFailure(ev: Event, e: Env) {
    (ev.NodeStop? || ev.SignerStop?) && ev.env == e && !ev.ok && ev.teardown
  }

  ghost predicate IsRevocation(ev: Event, e: Env) {
    ev.SignerStop? && ev.env == e && ev.teardown
  }

  /** The environment pointer has not been given to a new environment since event `i`. */
  ghost predicate Latest(trace: seq<Event>, i: nat, e: Env) {
    i < |trace| && forall k :: i < k < |trace| ==> trace[k] != Opened(e)
  }

  /** A native stop made by the teardown of the environment, as it is now, failed. */
  ghost predicate FailedTeardown(trace: seq<Event>, e: Env) {
    exists i: nat :: Latest(trace, i, e) && IsTeardownFailure(trace[i], e)
  }

  /** The same, of any environment there ever was at this pointer. */
  ghost predicate EverFailed(trace: seq<Event>, e: Env) {
    exists ev :: ev in trace && IsTeardownFailure(ev, e)
  }

  /** Teardown has stopped a signer of the environment, as it is now. */
  ghost predicate Revoked(trace: seq<Event>, e: Env) {
    exists i: nat :: Latest(trace, i, e) && IsRevocation(trace[i], e)
  }

  ghost predicate Pristine(s: State, a: Addr)
    requires a in s.mem
  {
    !s.mem[a].freed && !s.mem[a].attempted && s.mem[a].obj !in s.wrapped
  }

  ghost predicate Draining(s: State, e: Env, signer: Addr, stopped: bool) {
    && Listed(s, e, signer, Signer) && !s.mem[signer].hooked
    && e in s.closing
    && (!stopped ==> FailedTeardown(s.trace, e))
  }

  ghost predicate PcInv(s: State, e: Env, pc: Pc) {
    match pc
    case Idle => true
    case Registering(a) =>
      Mine(s, e, a) && a !in s.list && Pristine(s, a) && !s.mem[a].hooked && e !in s.closing && NoLive(s, e, a)
    case Hooking(a) =>
      Mine(s, e, a) && a in s.list && Pristine(s, a) && !s.mem[a].hooked && e !in s.closing && NoLive(s, e, a)
    case Exporting(a) =>
      Mine(s, e, a) && a in s.list && Pristine(s, a) && s.mem[a].hooked && e !in s.closing && NoLive(s, e, a)
    case UndoUnlinking(a) => Mine(s, e, a) && a in s.list && Pristine(s, a) && e !in s.closing && NoLive(s, e, a)
    case UndoStopping(a) => Mine(s, e, a) && a !in s.list && Pristine(s, a)
    case Freeing(a) => Mine(s, e, a) && a !in s.list && (s.mem[a].obj in s.wrapped ==> s.mem[a].freed)
    case Unlinking(a) => Mine(s, e, a) && a in s.list && s.mem[a].freed && (e !in s.closing ==> NoLive(s, e, a))
    case NodeTeardown(id) => e in s.closing && Hook(e, Node, id) !in s.hooks && Issued(s, id)
    case NodeTeardownStopping(a) => Listed(s, e, a, Node) && e in s.closing && HookOf(s.mem[a]) !in s.hooks
    case SignerTeardown(id) => e in s.closing && Hook(e, Signer, id) !in s.hooks && Issued(s, id)
    case Scanning(signer, cursor, stopped) =>
      Draining(s, e, signer, stopped) && (stopped ==> NodesAbove(s, e, cursor))
    case DrainFinding(signer, id, stopped) =>
      Draining(s, e, signer, stopped) && id > 0 && (stopped ==> NodesAbove(s, e, id - 1))
      && exists a :: Listed(s, e, a, Node) && s.mem[a].id == id
    case DrainStopping(signer, id, node, stopped) =>
      Draining(s, e, signer, stopped) && id > 0 && (stopped ==> NodesAbove(s, e, id - 1))
      && Listed(s, e, node, Node) && s.mem[node].id == id
    case DrainUnlinking(signer, id, node, stopped) =>
      Draining(s, e, signer, stopped) && id > 0 && (stopped ==> NodesAbove(s, e, id - 1))
      && Listed(s, e, node, Node) && s.mem[node].id == id && s.mem[node].freed
    case DrainFreeing(signer, id, node, stopped) =>
      Draining(s, e, signer, stopped) && id > 0
      && Mine(s, e, node) && s.mem[node].kind == Node && node !in s.list && s.mem[node].freed && s.mem[node].id == id
      && (stopped ==> forall a :: Mine(s, e, a) && s.mem[a].kind == Node && a != node ==> s.mem[a].id > id)
    case SignerStopping(a) => Draining(s, e, a, true) && NoNodes(s, e)
    case Finalizing(x) => x.env == e && x !in s.live
    case FinalizingNode(a) => Listed(s, e, a, Node) && (e !in s.closing ==> NoLive(s, e, a))
    case FinalizingSigner(a) => Listed(s, e, a, Signer) && (e !in s.closing ==> NoLive(s, e, a))
    case JsLookup(op, x) => e !in s.closing && x in s.live && x.env == e
    case JsActing(op, a) => Listed(s, e, a, OpKind(op)) && e !in s.closing
  }

  /** The wrapper that is allocated but not in the list at this point of the code. */
  ghost predicate Loose(pc: Pc, a: Addr) {
    ((pc.Registering? || pc.UndoStopping? || pc.Freeing?) && pc.ref == a) || (pc.DrainFreeing? && pc.node == a)
  }

  /** libjs has taken the callback of this entry off its list and the callback has not yet cleared the flag. */
  ghost predicate Firing(pc: Pc, a: Addr, w: Wrapper) {
    || (pc.NodeTeardown? && w.kind == Node && pc.id == w.id)
    || (pc.SignerTeardown? && w.kind == Signer && pc.id == w.id)
    || (pc.NodeTeardownStopping? && pc.ref == a)
  }

  ghost predicate Focus(pc: Pc, a: Addr) {
    || ((pc.Hooking? || pc.UndoUnlinking? || pc.NodeTeardownStopping? || pc.Unlinking? || pc.SignerStopping?)
        && pc.ref == a)
    || ((pc.Scanning? || pc.DrainFinding? || pc.DrainStopping? || pc.DrainUnlinking? || pc.DrainFreeing?)
        && pc.signer == a)
  }

  ghost predicate Tracks(s: State, x: External) {
    && x.addr in s.list && x.addr in s.mem
    && s.mem[x.addr].env == x.env && s.mem[x.addr].kind == x.kind && s.mem[x.addr].id == x.id
  }

  ghost predicate AllocatedInv(s: State, e: Env, pc: Pc) {
    forall a :: Mine(s, e, a) ==> a in s.list || Loose(pc, a)
  }

  ghost predicate HookedInv(s: State, e: Env, pc: Pc) {
    forall a :: Mine(s, e, a) && a in s.list && s.mem[a].hooked ==>
      HookOf(s.mem[a]) in s.hooks || Firing(pc, a, s.mem[a]) || pc == UndoUnlinking(a)
  }

  /** What the teardown of an earlier environment at this pointer retained. */
  ghost predicate Leftover(s: State, e: Env, a: Addr)
    requires a in s.mem
  {
    s.mem[a].id < FirstOf(s, e) && EverFailed(s.trace, e)
  }

  ghost predicate RetainedInv(s: State, e: Env, pc: Pc) {
    forall a :: Mine(s, e, a) && a in s.list && !s.mem[a].hooked ==>
      Focus(pc, a) || Firing(pc, a, s.mem[a]) || Leftover(s, e, a) || (e in s.closing && FailedTeardown(s.trace, e))
  }

  ghost predicate ReachableInv(s: State, e: Env) {
    e !in s.closing ==> forall x :: x in s.live && x.env == e ==> Tracks(s, x)
  }

  ghost predicate RevokedInv(s: State, e: Env) {
    Revoked(s.trace, e) ==> e in s.closing && NoNodes(s, e)
  }

  /** The identity a running callback carries is not registered by anyone else. */
  ghost predicate FiringInv(s: State, e: Env, pc: Pc)
    requires Resident(s.list, s.mem)
  {
    && (pc.NodeTeardown? ==> forall a :: a in s.list && s.mem[a].id == pc.id ==>
          HookOf(s.mem[a]) == Hook(e, Node, pc.id))
    && (pc.SignerTeardown? ==> forall a :: a in s.list && s.mem[a].id == pc.id ==>
          HookOf(s.mem[a]) == Hook(e, Signer, pc.id))
  }

  ghost predicate EntriesInv(s: State, e: Env, pc: Pc) {
    && AllocatedInv(s, e, pc)
    && HookedInv(s, e, pc)
    && RetainedInv(s, e, pc)
    && ReachableInv(s, e)
    && RevokedInv(s, e)
  }

  ghost predicate EnvInv(s: State, e: Env)
    requires Resident(s.list, s.mem)
  {
    && FiringInv(s, e, PcOf(s, e))
    && PcInv(s, e, PcOf(s, e))
    && EntriesInv(s, e, PcOf(s, e))
  }

  /** Native objects are held by one wrapper each. */
  ghost predicate ObjectsInv(s: State) {
    && (forall a :: a in s.mem ==> s.mem[a].obj < s.nextObj)
    && (forall o :: o in s.wrapped ==> o < s.nextObj)
    && (forall a, b :: a in s.mem && b in s.mem && a != b ==> s.mem[a].obj != s.mem[b].obj)
  }

  ghost predicate Inv(s: State) {
    && RegistryInv(s)
    && HooksInv(s)
    && ObjectsInv(s)
    && forall e :: EnvInv(s, e)
  }
}
