/** wrap_sdk_node and wrap_signer of the registry class do what the state machine does when nothing interleaves. */
module LifecycleWrap {
  import opened Common
  import opened Handles
  import opened Lifecycle
  import opened LifecycleInvariant
  import opened LifecycleSteps
  import opened LifecycleSafety
  import opened LifecycleProgress
  import opened LifecycleAgreement
  import R = HandleOutcomes

  ghost function Go(e: Env, ok: bool): Move {
    Move(e, Resume(ok))
  }

  /** What libjs and the native library are asked after malloc, and how they answer. */
  ghost function WrapMoves(s: State, e: Env, hookOk: bool, exportOk: bool, stopOk: bool): seq<Move> {
    var undo := [Go(e, stopOk)] + [Go(e, true)];
    [Go(e, true)] + (
      if s.nextId == 0 then undo
      else if !hookOk then [Go(e, false)] + ([Go(e, true)] + undo)
      else [Go(e, true)] + (if exportOk then [Go(e, true)] else [Go(e, false)] + ([Go(e, true)] + undo)))
  }

  /** The wrapper has been allocated. */
  ghost function Allocated(s: State, e: Env, kind: Kind, at: Addr): State {
    Goto(s.(nextObj := s.nextObj + 1, mem := s.mem[at := R.Unwrapped(e, kind, s.nextObj)]), e, Registering(at))
  }

  ghost function Registered(u: State, e: Env, at: Addr): State
    requires at in u.mem && u.word > 0
  {
    Store(u.(list := [at] + u.list, nextId := Successor(u.nextId, u.word)), e, at, u.mem[at].(id := u.nextId),
          [Issue(u.nextId)], Hooking(at))
  }

  ghost function Hooked(u: State, e: Env, at: Addr): State
    requires at in u.mem
  {
    Store(u.(hooks := u.hooks + {HookOf(u.mem[at])}), e, at, u.mem[at].(hooked := true), [], Exporting(at))
  }

  ghost function Exported(u: State, e: Env, at: Addr): State
    requires at in u.mem
  {
    var w := u.mem[at];
    Goto(u.(live := u.live + {External(e, at, w.kind, w.id)},
            wrapped := u.wrapped[w.obj := Owner(e, w.kind, at, w.id)]), e, Idle)
  }

  ghost function GivenBack(u: State, e: Env, at: Addr, ok: bool): State
    requires at in u.mem
  {
    var w := u.mem[at];
    Released(Store(u, e, at, Undone(w, ok), UndoEvents(w, ok), Freeing(at)), e, at, Idle)
  }

  // ---------- Giving up ----------

  lemma UndoStep(u: State, e: Env, at: Addr, ok: bool)
    requires u.word > 0 && Resident(u.list, u.mem) && PcOf(u, e) == UndoStopping(at) && at in u.mem
    ensures Step(u, e, Resume(ok)) ==
      Next(Store(u, e, at, Undone(u.mem[at], ok), UndoEvents(u.mem[at], ok), Freeing(at)))
  {
  }

  lemma UndoRun(u: State, e: Env, at: Addr, ok: bool)
    requires u.word > 0 && Resident(u.list, u.mem) && PcOf(u, e) == UndoStopping(at) && at in u.mem
    ensures Run(u, [Go(e, ok)] + [Go(e, true)]) == Next(GivenBack(u, e, at, ok))
  {
    var v := Store(u, e, at, Undone(u.mem[at], ok), UndoEvents(u.mem[at], ok), Freeing(at));
    UndoStep(u, e, at, ok);
    RunCons(u, Go(e, ok), [Go(e, true)]);
    FreeStep(v, e, at, true);
    RunOne(v, Go(e, true));
  }

  lemma UnlinkUndoRun(u: State, e: Env, at: Addr, ok: bool)
    requires u.word > 0 && Resident(u.list, u.mem) && Descending(u.list, u.mem)
    requires PcOf(u, e) == UndoUnlinking(at) && at in u.mem
    ensures Run(u, [Go(e, true)] + ([Go(e, ok)] + [Go(e, true)])) ==
      Next(GivenBack(Unlinked(u, e, at, UndoStopping(at)), e, at, ok))
  {
    RemoveExactly(u.list, u.mem, at);
    RunCons(u, Go(e, true), [Go(e, ok)] + [Go(e, true)]);
    UndoRun(Unlinked(u, e, at, UndoStopping(at)), e, at, ok);
  }

  lemma GivenBackSeen(u: State, e: Env, at: Addr, ok: bool)
    requires at in u.mem
    ensures Seen(GivenBack(u, e, at, ok)) ==
      R.Native(u.mem - {at}, u.list, u.hooks, u.trace + UndoEvents(u.mem[at], ok), u.nextId)
  {
    R.StoredThenFreed(u.mem, at, Undone(u.mem[at], ok), u.mem[at]);
  }

  // ---------- From the allocation to the end ----------

  ghost function Issues(s: State): seq<Event> {
    if s.nextId == 0 then [] else [Issue(s.nextId)]
  }

  /** What the class leaves, after the state machine has noted the identity. */
  ghost function Expected(s: State, e: Env, kind: Kind, at: Addr, hookOk: bool, exportOk: bool, stopOk: bool): R.Native
    requires s.word > 0
  {
    R.WrapOutcome(Seen(s).(trace := s.trace + Issues(s)), e, kind, s.nextObj, at, hookOk, exportOk, stopOk, s.word)
  }

  lemma ExhaustedWrap(s: State, e: Env, kind: Kind, at: Addr, hookOk: bool, exportOk: bool, stopOk: bool)
    requires s.word > 0 && R.Sound(Seen(s)) && at != NULL && at !in s.mem && s.nextId == 0
    ensures var o := Run(Allocated(s, e, kind, at), WrapMoves(s, e, hookOk, exportOk, stopOk));
      && o.Next? && PcOf(o.s, e).Idle? && Seen(o.s) == Expected(s, e, kind, at, hookOk, exportOk, stopOk)
  {
    var u := Allocated(s, e, kind, at);
    var v := Goto(u, e, UndoStopping(at));
    RunCons(u, Go(e, true), [Go(e, stopOk)] + [Go(e, true)]);
    UndoRun(v, e, at, stopOk);
    GivenBackSeen(v, e, at, stopOk);
    assert s.mem[at := v.mem[at]] - {at} == s.mem;
    assert s.trace + [] == s.trace;
  }

  /** The wrapper with its identity. */
  ghost function Entered(s: State, e: Env, kind: Kind): Wrapper {
    R.Unwrapped(e, kind, s.nextObj).(id := s.nextId)
  }

  lemma EnteredSound(s: State, at: Addr, w: Wrapper)
    requires RegistryInv(s) && at != NULL && at !in s.mem && w.id == s.nextId != 0
    ensures R.Sound(Seen(s).(mem := s.mem[at := w], list := [at] + s.list))
  {
    var list, mem := [at] + s.list, s.mem[at := w];
    forall i, j | 0 <= i < j < |list| ensures mem[list[i]].id > mem[list[j]].id {
      assert list[j] == s.list[j - 1] && Issued(s, s.mem[list[j]].id);
      if i > 0 { assert list[i] == s.list[i - 1]; }
    }
  }

  lemma RegisteredIs(s: State, e: Env, kind: Kind, at: Addr)
    requires s.word > 0
    ensures var u := Registered(Allocated(s, e, kind, at), e, at);
      && u.mem == s.mem[at := Entered(s, e, kind)] && u.list == [at] + s.list && Remove(u.list, at) == s.list
  {
    assert ([at] + s.list)[1..] == s.list;
  }

  lemma RegisteredSound(s: State, e: Env, kind: Kind, at: Addr)
    requires Safe(s) && at != NULL && at !in s.mem && s.nextId != 0
    ensures var u := Registered(Allocated(s, e, kind, at), e, at);
      && u.word > 0 && R.Sound(Seen(u)) && HookOf(u.mem[at]) !in s.hooks
      && u.mem == s.mem[at := Entered(s, e, kind)] && u.list == [at] + s.list && Remove(u.list, at) == s.list
  {
    EnteredSound(s, at, Entered(s, e, kind));
    RegisteredIs(s, e, kind, at);
    assert forall h :: h in s.hooks ==> Issued(s, h.id);
  }

  lemma HookedSound(s: State, e: Env, kind: Kind, at: Addr)
    requires Safe(s) && at != NULL && at !in s.mem && s.nextId != 0
    ensures var u := Hooked(Registered(Allocated(s, e, kind, at), e, at), e, at);
      && u.word > 0 && R.Sound(Seen(u)) && u.list == [at] + s.list && Remove(u.list, at) == s.list
      && u.mem == s.mem[at := Entered(s, e, kind).(hooked := true)]
      && HookOf(u.mem[at]) !in s.hooks && u.hooks == s.hooks + {HookOf(u.mem[at])}
      && u.trace == s.trace + Issues(s)
  {
    var w := Entered(s, e, kind);
    EnteredSound(s, at, w.(hooked := true));
    RegisteredSound(s, e, kind, at);
    R.StoredTwice(s.mem, at, w, w.(hooked := true));
    assert s.trace + Issues(s) + [] == s.trace + Issues(s);
  }

  lemma RegisterStep(s: State, e: Env, kind: Kind, at: Addr)
    requires s.word > 0 && Resident(s.list, s.mem) && at != NULL && at !in s.mem && s.nextId != 0
    ensures var u := Allocated(s, e, kind, at); Step(u, e, Resume(true)) == Next(Registered(u, e, at))
  {
  }

  /** The entry is taken out again, and nothing but the identity and the native calls is left of it. */
  lemma TakenBack(s: State, u: State, e: Env, at: Addr, ok: bool)
    requires u.word > 0 && Resident(u.list, u.mem) && Descending(u.list, u.mem) && PcOf(u, e) == UndoUnlinking(at)
    requires Remove(u.list, at) == s.list && u.hooks == s.hooks
    requires at !in s.mem && at in u.mem && u.mem == s.mem[at := u.mem[at]]
    ensures var o := Run(u, [Go(e, true)] + ([Go(e, ok)] + [Go(e, true)]));
      && o.Next? && PcOf(o.s, e).Idle?
      && Seen(o.s) == R.Native(s.mem, s.list, s.hooks, u.trace + UndoEvents(u.mem[at], ok), u.nextId)
  {
    var v := Unlinked(u, e, at, UndoStopping(at));
    UnlinkUndoRun(u, e, at, ok);
    GivenBackSeen(v, e, at, ok);
    MadeRoom(s.mem, at, u.mem[at]);
  }

  lemma MadeRoom(mem: Memory, at: Addr, w: Wrapper)
    requires at !in mem
    ensures mem[at := w] - {at} == mem
  {
  }

  lemma ExpectedFailure(s: State, e: Env, kind: Kind, at: Addr, hookOk: bool, exportOk: bool, stopOk: bool, w: Wrapper)
    requires s.word > 0 && s.nextId != 0 && !(hookOk && exportOk)
    requires w == Entered(s, e, kind) || w == Entered(s, e, kind).(hooked := true)
    ensures Expected(s, e, kind, at, hookOk, exportOk, stopOk) ==
      R.Native(s.mem, s.list, s.hooks, s.trace + Issues(s) + UndoEvents(w, stopOk), Successor(s.nextId, s.word))
  {
  }

  lemma UnhookedWrap(s: State, e: Env, kind: Kind, at: Addr, exportOk: bool, stopOk: bool)
    requires Safe(s) && at != NULL && at !in s.mem && s.nextId != 0
    ensures var u := Registered(Allocated(s, e, kind, at), e, at);
      var o := Run(u, [Go(e, false)] + ([Go(e, true)] + ([Go(e, stopOk)] + [Go(e, true)])));
      && o.Next? && PcOf(o.s, e).Idle? && Seen(o.s) == Expected(s, e, kind, at, false, exportOk, stopOk)
  {
    var u := Registered(Allocated(s, e, kind, at), e, at);
    RegisteredSound(s, e, kind, at);
    var v := Goto(u, e, UndoUnlinking(at));
    assert Step(u, e, Resume(false)) == Next(v);
    RunCons(u, Go(e, false), [Go(e, true)] + ([Go(e, stopOk)] + [Go(e, true)]));
    TakenBack(s, v, e, at, stopOk);
    ExpectedFailure(s, e, kind, at, false, exportOk, stopOk, u.mem[at]);
  }

  lemma ExportStep(u: State, e: Env, at: Addr)
    requires u.word > 0 && Resident(u.list, u.mem) && PcOf(u, e) == Exporting(at) && at in u.mem
    requires HookOf(u.mem[at]) in u.hooks
    ensures Step(u, e, Resume(true)) == Next(Exported(u, e, at))
    ensures Step(u, e, Resume(false)) ==
      Next(Goto(u.(hooks := u.hooks - {HookOf(u.mem[at])}), e, UndoUnlinking(at)))
  {
  }

  lemma ExportedWrap(s: State, e: Env, kind: Kind, at: Addr, stopOk: bool)
    requires Safe(s) && at != NULL && at !in s.mem && s.nextId != 0
    ensures var u := Hooked(Registered(Allocated(s, e, kind, at), e, at), e, at);
      var o := Run(u, [Go(e, true)]);
      && o.Next? && PcOf(o.s, e).Idle? && Seen(o.s) == Expected(s, e, kind, at, true, true, stopOk)
      && External(e, at, kind, s.nextId) in o.s.live
  {
    var u := Hooked(Registered(Allocated(s, e, kind, at), e, at), e, at);
    HookedSound(s, e, kind, at);
    ExportStep(u, e, at);
    RunOne(u, Go(e, true));
  }

  lemma UnexportedWrap(s: State, e: Env, kind: Kind, at: Addr, stopOk: bool)
    requires Safe(s) && at != NULL && at !in s.mem && s.nextId != 0
    ensures var u := Hooked(Registered(Allocated(s, e, kind, at), e, at), e, at);
      var o := Run(u, [Go(e, false)] + ([Go(e, true)] + ([Go(e, stopOk)] + [Go(e, true)])));
      && o.Next? && PcOf(o.s, e).Idle? && Seen(o.s) == Expected(s, e, kind, at, true, false, stopOk)
  {
    var u := Hooked(Registered(Allocated(s, e, kind, at), e, at), e, at);
    HookedSound(s, e, kind, at);
    var v := Goto(u.(hooks := u.hooks - {HookOf(u.mem[at])}), e, UndoUnlinking(at));
    assert v.hooks == s.hooks;
    ExportStep(u, e, at);
    RunCons(u, Go(e, false), [Go(e, true)] + ([Go(e, stopOk)] + [Go(e, true)]));
    TakenBack(s, v, e, at, stopOk);
    ExpectedFailure(s, e, kind, at, true, false, stopOk, u.mem[at]);
  }

  lemma HookedRun(s: State, e: Env, kind: Kind, at: Addr, rest: seq<Move>)
    requires Safe(s) && at != NULL && at !in s.mem && s.nextId != 0
    ensures var u := Registered(Allocated(s, e, kind, at), e, at);
      Run(u, [Go(e, true)] + rest) == Run(Hooked(u, e, at), rest)
  {
    var u := Registered(Allocated(s, e, kind, at), e, at);
    RegisteredSound(s, e, kind, at);
    assert Step(u, e, Resume(true)) == Next(Hooked(u, e, at));
    RunCons(u, Go(e, true), rest);
  }

  lemma RegisteredWrap(s: State, e: Env, kind: Kind, at: Addr, hookOk: bool, exportOk: bool, stopOk: bool)
    requires Safe(s) && at != NULL && at !in s.mem && s.nextId != 0
    ensures var o := Run(Allocated(s, e, kind, at), WrapMoves(s, e, hookOk, exportOk, stopOk));
      && o.Next? && PcOf(o.s, e).Idle? && Seen(o.s) == Expected(s, e, kind, at, hookOk, exportOk, stopOk)
      && (hookOk && exportOk ==> External(e, at, kind, s.nextId) in o.s.live)
  {
    var undo := [Go(e, false)] + ([Go(e, true)] + ([Go(e, stopOk)] + [Go(e, true)]));
    var last := if exportOk then [Go(e, true)] else undo;
    RegisterStep(s, e, kind, at);
    RunCons(Allocated(s, e, kind, at), Go(e, true), if hookOk then [Go(e, true)] + last else undo);
    if !hookOk {
      UnhookedWrap(s, e, kind, at, exportOk, stopOk);
    } else {
      HookedRun(s, e, kind, at, last);
      if exportOk { ExportedWrap(s, e, kind, at, stopOk); } else { UnexportedWrap(s, e, kind, at, stopOk); }
    }
  }

  /** From every reachable state in which an environment may wrap a native object and malloc finds memory, whatever
      libjs and the native library answer. */
  lemma WrapAgrees(s: State, e: Env, kind: Kind, at: Addr, hookOk: bool, exportOk: bool, stopOk: bool)
    requires Reachable(s) && s.word > 0 && PcOf(s, e).Idle? && e !in s.closing && at != NULL && at !in s.mem
    ensures var o := Run(s, [Move(e, Wrap(kind, Some(at)))] + WrapMoves(s, e, hookOk, exportOk, stopOk));
      && o.Next? && PcOf(o.s, e).Idle? && Seen(o.s) == Expected(s, e, kind, at, hookOk, exportOk, stopOk)
      && (s.nextId != 0 && hookOk && exportOk ==> External(e, at, kind, s.nextId) in o.s.live)
  {
    assert Safe(s) by { ReachableSafe(s); }
    assert Step(s, e, Wrap(kind, Some(at))) == Next(Allocated(s, e, kind, at));
    RunCons(s, Move(e, Wrap(kind, Some(at))), WrapMoves(s, e, hookOk, exportOk, stopOk));
    if s.nextId == 0 {
      ExhaustedWrap(s, e, kind, at, hookOk, exportOk, stopOk);
    } else {
      RegisteredWrap(s, e, kind, at, hookOk, exportOk, stopOk);
    }
  }

  /** When malloc finds none, the native object is freed at once and nothing else happens, as in the methods. */
  lemma WrapWithoutMemory(s: State, e: Env, kind: Kind)
    requires Reachable(s) && s.word > 0 && PcOf(s, e).Idle? && e !in s.closing
    ensures var o := Step(s, e, Wrap(kind, None));
      && o.Next? && PcOf(o.s, e).Idle?
      && Seen(o.s) == Seen(s).(trace := s.trace + [if kind == Node then NodeFree(s.nextObj) else SignerFree(s.nextObj)])
  {
    ReachableSafe(s);
  }
}
