/** The JavaScript classes of index.js over one native handle each, in an environment that is not being torn down. */
module Facade {
  import opened Common
  import opened Handles
  import opened Lifecycle
  import opened LifecycleLedger

  /** The entry points of binding.cc for one wrapped handle.  `None` as a handle is JavaScript's null, which
      `read_external` rejects; a method returns whether it threw. */
  class Binding {
    var wrapper: Wrapper
    var trace: seq<Event>

    ghost predicate Valid()
      reads this
    {
      Accounted(trace, wrapper) && Legal(trace, {})
    }

    constructor (env: Env, kind: Kind, id: nat, obj: Obj)
      ensures Valid() && trace == [] && wrapper == Wrapper(env, kind, id, obj, false, false, true)
    {
      wrapper := Wrapper(env, kind, id, obj, false, false, true);
      trace := [];
    }

    /** An entry point the handle was admitted to; see the state machine's JsActing step. */
    method Act(op: Op, ok: bool)
      requires Valid() && wrapper.kind == OpKind(op)
      modifies this
      ensures Valid() && HookOf(wrapper) == old(HookOf(wrapper)) && wrapper.obj == old(wrapper.obj)
      ensures wrapper == Acted(op, old(wrapper), ok) && trace == old(trace) + ActEvents(op, old(wrapper), ok)
    {
      ghost var w := wrapper;
      ActCalls(trace, op, w, ok, {});
      NoCall(trace);
      TwoCalls(trace, NodeStop(w.env, w.obj, ok, false), NodeFree(w.obj));
      match op {
        case NodeShutdown =>
          if !wrapper.freed && !wrapper.attempted {
            trace := trace + [NodeStop(wrapper.env, wrapper.obj, ok, false)];
            wrapper := wrapper.(attempted := ok);
          }
        case NodeDestroy =>
          if !wrapper.freed && !wrapper.attempted {
            trace := trace + [NodeStop(wrapper.env, wrapper.obj, ok, false)];
            wrapper := wrapper.(attempted := ok);
          }
          if !wrapper.freed && wrapper.attempted {
            trace := trace + [NodeFree(wrapper.obj)];
            wrapper := wrapper.(freed := true);
          }
        case NodeUse =>
          if !wrapper.freed && !wrapper.attempted { trace := trace + [NodeCall(wrapper.obj)]; }
        case SignerShutdown =>
          if !wrapper.freed { trace := trace + [SignerStop(wrapper.env, wrapper.obj, ok, false)]; }
        case SignerDestroy =>
          if !wrapper.freed {
            trace := trace + [SignerFree(wrapper.obj)];
            wrapper := wrapper.(freed := true);
          }
        case SignerUse =>
          if !wrapper.freed { trace := trace + [SignerCall(wrapper.obj)]; }
      }
    }

    /** fn_sdk_node_shutdown. */
    method SdkNodeShutdown(handle: Option<Addr>, ok: bool) returns (threw: bool)
      requires Valid() && wrapper.kind == Node
      modifies this
      ensures Valid() && HookOf(wrapper) == old(HookOf(wrapper)) && wrapper.obj == old(wrapper.obj)
      ensures handle.None? ==> threw && wrapper == old(wrapper) && trace == old(trace)
      ensures handle.Some? ==> threw == (old(wrapper).freed || !(old(wrapper).attempted || ok))
      ensures handle.Some? ==> wrapper == Acted(NodeShutdown, old(wrapper), ok)
      ensures handle.Some? ==> trace == old(trace) + ActEvents(NodeShutdown, old(wrapper), ok)
      ensures var w := old(wrapper);
        handle.Some? ==>
          && wrapper == (if w.freed || w.attempted then w else w.(attempted := ok))
          && trace == old(trace) + (if w.freed || w.attempted then [] else [NodeStop(w.env, w.obj, ok, false)])
    {
      if handle.None? { return true; }
      threw := wrapper.freed || !(wrapper.attempted || ok);
      Act(NodeShutdown, ok);
    }

    /** fn_sdk_node_destroy. */
    method SdkNodeDestroy(handle: Option<Addr>, ok: bool) returns (threw: bool)
      requires Valid() && wrapper.kind == Node
      modifies this
      ensures Valid() && HookOf(wrapper) == old(HookOf(wrapper)) && wrapper.obj == old(wrapper.obj)
      ensures handle.None? ==> threw && wrapper == old(wrapper) && trace == old(trace)
      ensures handle.Some? ==> wrapper == Acted(NodeDestroy, old(wrapper), ok)
      ensures handle.Some? ==> trace == old(trace) + ActEvents(NodeDestroy, old(wrapper), ok)
      ensures handle.Some? ==> threw == !wrapper.freed == !(old(wrapper).freed || old(wrapper).attempted || ok)
      ensures var w := old(wrapper);
        var calls := if w.freed then [] else if w.attempted then [NodeFree(w.obj)]
                     else if ok then [NodeStop(w.env, w.obj, true, false), NodeFree(w.obj)]
                     else [NodeStop(w.env, w.obj, false, false)];
        handle.Some? ==> trace == old(trace) + calls
    {
      if handle.None? { return true; }
      Act(NodeDestroy, ok);
      threw := !wrapper.freed;
    }
  }

  class SdkNode {
    const binding: Binding
    var handle: Option<Addr>
    var closed: bool

    /** `_closed` holds exactly when the native node has been freed, which happened once and after a shutdown that
        returned Ok; until then the handle is kept. */
    ghost predicate Valid()
      reads this, binding
    {
      && binding.Valid() && binding.wrapper.kind == Node
      && (closed <==> binding.wrapper.freed)
      && (closed <==> handle.None?)
    }

    constructor (binding: Binding, handle: Addr)
      requires binding.Valid() && binding.wrapper.kind == Node && !binding.wrapper.freed
      ensures Valid() && this.binding == binding && this.handle == Some(handle) && !closed
    {
      this.binding := binding;
      this.handle := Some(handle);
      closed := false;
    }

    /** shutdown(); `ok` is what native shutdown answers.  A throw leaves a node that can be shut down again. */
    method Shutdown(ok: bool) returns (threw: bool)
      requires Valid()
      modifies this, binding
      ensures Valid() && binding.wrapper.obj == old(binding.wrapper.obj)
      ensures threw == !(old(closed) || old(binding.wrapper).attempted || ok)
      ensures closed == !threw
      ensures threw ==> handle == old(handle) && binding.wrapper == old(binding.wrapper)
      ensures binding.trace == old(binding.trace) + StopEvents(old(binding.wrapper), ok, false)
      ensures Frees(binding.trace, binding.wrapper.obj) == if closed then 1 else 0
    {
      assert Accounted(binding.trace, binding.wrapper);
      if closed {
        return false;
      }
      threw := binding.SdkNodeShutdown(handle, ok);
      if threw {
        assert binding.wrapper == old(binding.wrapper);
        return;
      }
      ghost var stopped := binding.trace;
      threw := binding.SdkNodeDestroy(handle, ok);
      assert binding.wrapper.freed;
      CallsInOrder(old(binding.trace), old(binding.wrapper), ok);
      handle := None;
      closed := true;
    }

    /** Any other method; `ok` is what the native call answers.  It reaches the native node only while that is neither
        stopped nor freed, and throws otherwise or when the native call fails. */
    method Use(ok: bool) returns (threw: bool)
      requires Valid()
      modifies binding
      ensures Valid() && binding.wrapper == old(binding.wrapper)
      ensures threw == (closed || binding.wrapper.attempted || !ok)
      ensures binding.trace == old(binding.trace) +
        if closed || binding.wrapper.attempted then [] else [NodeCall(binding.wrapper.obj)]
    {
      if handle.None? { return true; }
      threw := binding.wrapper.freed || binding.wrapper.attempted || !ok;
      binding.Act(NodeUse, ok);
    }
  }

  /** Shutdown followed by destroy makes the calls of one stop-and-free: the second never stops the node again. */
  lemma CallsInOrder(trace: seq<Event>, w: Wrapper, ok: bool)
    requires w.kind == Node && !w.freed && (w.attempted || ok)
    ensures var v := Acted(NodeShutdown, w, ok);
      trace + ActEvents(NodeShutdown, w, ok) + ActEvents(NodeDestroy, v, ok) == trace + StopEvents(w, ok, false)
  {
    if w.attempted {
      assert trace + [] == trace;
    } else {
      assert trace + [NodeStop(w.env, w.obj, true, false)] + [NodeFree(w.obj)]
          == trace + [NodeStop(w.env, w.obj, true, false), NodeFree(w.obj)];
    }
  }

  class NativeExternalSigner {
    const binding: Binding
    var handle: Option<Addr>
    var destroyed: bool
    var revoked: bool           // _shutdown

    ghost predicate Valid()
      reads this, binding
    {
      && binding.Valid() && binding.wrapper.kind == Signer
      && (destroyed <==> binding.wrapper.freed)
      && (destroyed <==> handle.None?)
      && SuccessfulStops(binding.trace, binding.wrapper.obj) == (if revoked then 1 else 0)
    }

    constructor (binding: Binding, handle: Addr)
      requires binding.Valid() && binding.wrapper.kind == Signer && !binding.wrapper.freed && binding.trace == []
      ensures Valid() && this.binding == binding && this.handle == Some(handle) && !destroyed && !revoked
    {
      this.binding := binding;
      this.handle := Some(handle);
      destroyed, revoked := false, false;
    }

    /** bootstrap(); `ok` is what the native call answers. */
    method Bootstrap(ok: bool) returns (threw: bool)
      requires Valid()
      modifies binding
      ensures Valid() && destroyed == old(destroyed) && revoked == old(revoked)
      ensures threw == (destroyed || !ok)
      ensures binding.trace == old(binding.trace) + if destroyed then [] else [SignerCall(binding.wrapper.obj)]
    {
      if destroyed { return true; }
      binding.Act(SignerUse, ok);
      StopsMore(old(binding.trace), SignerCall(binding.wrapper.obj), binding.wrapper.obj);
      return !ok;
    }

    /** shutdown(): revocation is asked for until it succeeds once, and never after destroy(). */
    method Shutdown(ok: bool) returns (threw: bool)
      requires Valid()
      modifies this, binding
      ensures Valid() && destroyed == old(destroyed) && handle == old(handle)
      ensures threw == (!old(revoked) && (destroyed || !ok))
      ensures revoked == (old(revoked) || (!destroyed && ok))
      ensures binding.trace == old(binding.trace) + if old(revoked) || destroyed then []
                else [SignerStop(binding.wrapper.env, binding.wrapper.obj, ok, false)]
    {
      if revoked { return false; }
      if destroyed { return true; }
      binding.Act(SignerShutdown, ok);
      StopsMore(old(binding.trace), SignerStop(binding.wrapper.env, binding.wrapper.obj, ok, false),
                binding.wrapper.obj);
      if !ok { return true; }
      revoked := true;
      return false;
    }

    /** destroy(): drops the handle once and revokes nothing. */
    method Destroy()
      requires Valid()
      modifies this, binding
      ensures Valid() && destroyed && revoked == old(revoked)
      ensures binding.trace == old(binding.trace) + if old(destroyed) then [] else [SignerFree(binding.wrapper.obj)]
    {
      if destroyed { return; }
      binding.Act(SignerDestroy, true);
      StopsMore(old(binding.trace), SignerFree(binding.wrapper.obj), binding.wrapper.obj);
      handle := None;
      destroyed := true;
    }
  }

  /** How often the signer was revoked successfully. */
  ghost function SuccessfulStops(trace: seq<Event>, o: Obj): nat
    decreases |trace|
  {
    if trace == [] then 0
    else
      var ev := trace[|trace| - 1];
      SuccessfulStops(trace[..|trace| - 1], o) + if ev.SignerStop? && ev.obj == o && ev.ok then 1 else 0
  }

  lemma StopsMore(trace: seq<Event>, ev: Event, o: Obj)
    ensures SuccessfulStops(trace + [ev], o) ==
      SuccessfulStops(trace, o) + if ev.SignerStop? && ev.obj == o && ev.ok then 1 else 0
  {
    assert (trace + [ev])[..|trace|] == trace;
  }
}
