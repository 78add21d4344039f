/** The registry as binding.cc keeps it: a singly linked list through the wrappers' own memory. */
module HandleRegistry {
  import opened Common
  import opened Handles
  import opened Lifecycle
  import opened HandleOutcomes
  import opened DrainInterference
  import opened DrainLaws

  /** The entry at position i, and NULL behind the last. */
  ghost function At(list: seq<Addr>, i: nat): Addr {
    if i < |list| then list[i] else NULL
  }

  ghost predicate Linked(list: seq<Addr>, next: map<Addr, Addr>, head: Addr) {
    && NULL !in list
    && head == At(list, 0)
    && forall i :: 0 <= i < |list| ==> At(list, i) in next && next[At(list, i)] == At(list, i + 1)
  }

  class Registry {
    const word: nat                 // one more than UINTPTR_MAX
    var mem: Memory                 // the wrappers malloc has given out
    var next: map<Addr, Addr>       // the `next` field of each HandleEntry
    var handles: Addr
    var nextHandleId: nat
    var trace: seq<Event>           // the native calls made
    var hooks: set<Hook>            // the teardown callbacks pending in libjs
    ghost var list: seq<Addr>

    ghost predicate Valid()
      reads this
    {
      && 1 < word && nextHandleId < word
      && NULL !in mem
      && Resident(list, mem) && Descending(list, mem)
      && (forall a :: a in list ==> 0 < mem[a].id < word && (nextHandleId != 0 ==> mem[a].id < nextHandleId))
      && Linked(list, next, handles)
      && (forall h :: h in hooks ==> 0 < h.id < word && (nextHandleId != 0 ==> h.id < nextHandleId))
    }

    constructor (word: nat)
      requires 1 < word
      ensures Valid() && this.word == word && mem == map[] && list == [] && nextHandleId == 1 && trace == []
      ensures hooks == {}
    {
      this.word := word;
      mem, next, handles, nextHandleId, trace, hooks := map[], map[], NULL, 1, [], {};
      list := [];
    }

    /** register_handle. */
    method RegisterHandle(entry: Addr, env: Env, kind: Kind) returns (ok: bool)
      requires Valid() && entry in mem && entry !in list
      modifies this`mem, this`next, this`handles, this`nextHandleId, this`list
      ensures Valid() && trace == old(trace)
      ensures ok == (old(nextHandleId) != 0)
      ensures ok ==> list == [entry] + old(list) && nextHandleId == Successor(old(nextHandleId), word)
      ensures ok ==> mem == old(mem)[entry := old(mem[entry]).(id := old(nextHandleId), env := env, kind := kind)]
      ensures !ok ==> list == old(list) && nextHandleId == 0 && mem == old(mem)
    {
      if nextHandleId == 0 {
        return false;
      }
      var id := nextHandleId;
      nextHandleId := (nextHandleId + 1) % word;
      mem := mem[entry := mem[entry].(id := id, env := env, kind := kind)];
      next := next[entry := handles];
      handles := entry;
      list := [entry] + list;
      PushLinked(old(list), old(next), old(handles), entry);
      PushDescends(old(list), old(mem), entry, mem[entry]);
      SuccessorIs(id, word);
      return true;
    }

    /** find_finalizer_handle. */
    method FindFinalizerHandle(env: Env, data: Addr, hint: nat, kind: Kind) returns (r: Addr)
      requires Valid()
      ensures r == Address(FindFinalizer(list, mem, env, data, hint, kind))
      ensures if data in list && mem[data].env == env && mem[data].kind == kind && mem[data].id == hint then r == data
              else r == NULL
    {
      var entry := handles;
      ghost var i := 0;
      while entry != NULL
        invariant 0 <= i <= |list| && entry == At(list, i)
        invariant forall j :: 0 <= j < i ==> list[j] != data || !FindFinalizer(list, mem, env, data, hint, kind).Some?
        decreases |list| - i
      {
        if entry == data && mem[entry].id == hint && mem[entry].env == env && mem[entry].kind == kind {
          return entry;
        }
        entry := next[entry];
        i := i + 1;
      }
      return NULL;
    }

    /** find_teardown_handle. */
    method FindTeardownHandle(id: nat, kind: Kind) returns (r: Addr)
      requires Valid()
      ensures r == Address(FindTeardown(list, mem, id, kind))
      ensures r != NULL ==> r in list && mem[r].id == id && mem[r].kind == kind
      ensures r == NULL ==> forall a :: a in list ==> mem[a].id != id || mem[a].kind != kind
    {
      var entry := handles;
      ghost var i := 0;
      while entry != NULL
        invariant 0 <= i <= |list| && entry == At(list, i)
        invariant FindTeardown(list, mem, id, kind) == FindTeardown(list[i..], mem, id, kind)
        decreases |list| - i
      {
        if mem[entry].id == id && mem[entry].kind == kind {
          return entry;
        }
        entry := next[entry];
        assert list[i..][1..] == list[i + 1..];
        i := i + 1;
      }
      return NULL;
    }

    /** owns_handle. */
    method OwnsHandle(env: Env, data: Addr, kind: Kind) returns (r: bool)
      requires Valid()
      ensures r == Owns(list, mem, env, data, kind)
      ensures r <==> data in list && mem[data].env == env && mem[data].kind == kind
    {
      var entry := handles;
      ghost var i := 0;
      while entry != NULL
        invariant 0 <= i <= |list| && entry == At(list, i)
        invariant data !in list[..i]
        decreases |list| - i
      {
        if entry == data {
          return mem[entry].env == env && mem[entry].kind == kind;
        }
        assert entry == list[i];
        entry := next[entry];
        assert list[..i + 1] == list[..i] + [list[i]];
        i := i + 1;
      }
      assert list[..i] == list;
      return false;
    }

    /** The scan of shutdown_environment_nodes. */
    method NextEnvironmentNode(env: Env, cursor: nat) returns (id: nat)
      requires Valid()
      ensures id == NextNode(list, mem, env, cursor)
      ensures id == 0 ==> forall a :: a in list && mem[a].env == env && mem[a].kind == Node ==> mem[a].id <= cursor
      ensures id != 0 ==>
        && id > cursor
        && (exists a :: a in list && mem[a].env == env && mem[a].kind == Node && mem[a].id == id)
        && (forall a :: a in list && mem[a].env == env && mem[a].kind == Node && mem[a].id > cursor ==> id <= mem[a].id)
    {
      id := 0;
      var entry := handles;
      ghost var i := 0;
      while entry != NULL
        invariant 0 <= i <= |list| && entry == At(list, i)
        invariant id == 0 || id > cursor
        invariant NextNode(list, mem, env, cursor) == Least(id, NextNode(list[i..], mem, env, cursor))
        decreases |list| - i
      {
        NextNodeStep(list, mem, env, cursor, i, id);
        if IsNode(mem[entry], env) && mem[entry].id > cursor && (id == 0 || mem[entry].id < id) {
          id := mem[entry].id;
        }
        entry := next[entry];
        i := i + 1;
      }
    }

    /** Pointing the field through which an entry was reached at the one after it. */
    method Splice(prev: Addr, entry: Addr, ghost i: nat)
      requires Valid() && i < |list| && list[i] == entry && entry !in list[..i]
      requires prev == if i == 0 then NULL else list[i - 1]
      modifies this`list, this`next, this`handles
      ensures Valid() && list == Remove(old(list), entry)
    {
      RemoveExactly(list, mem, entry);
      SpliceLinked(list, mem, next, handles, entry, i);
      if prev == NULL {
        handles := next[entry];
      } else {
        next := next[prev := next[entry]];
      }
      list := Remove(list, entry);
    }

    /** unregister_handle: `prev` is the entry whose next field the cursor points to, NULL for the head itself. */
    method UnregisterHandle(entry: Addr)
      requires Valid()
      modifies this`list, this`next, this`handles
      ensures Valid() && list == Remove(old(list), entry)
    {
      RemoveExactly(list, mem, entry);
      var prev, cursor := NULL, handles;
      ghost var i := 0;
      while cursor != NULL
        invariant 0 <= i <= |list| && cursor == At(list, i)
        invariant prev == if i == 0 then NULL else list[i - 1]
        invariant entry !in list[..i]
        invariant list == old(list) && next == old(next) && handles == old(handles)
        decreases |list| - i
      {
        if cursor == entry {
          Splice(prev, entry, i);
          return;
        }
        assert cursor == list[i];
        assert list[..i + 1] == list[..i] + [list[i]];
        prev, cursor := cursor, next[cursor];
        i := i + 1;
      }
      assert list[..i] == list;
      RemoveAbsent(list, entry);
    }

    // ---------- shutdown_environment_nodes ----------

    /** Another environment wraps a handle, if malloc can give it that address and identities are left. */
    method WrapElsewhere(env: Env, at: Addr, other: Env, kind: Kind, obj: Obj) returns (ghost effects: seq<Effect>)
      requires Valid() && other != env && at != NULL && at !in mem
      modifies this`mem, this`next, this`handles, this`nextHandleId, this`list, this`trace
      ensures Valid() && trace == old(trace)
      ensures Remaining(list, mem, env, old(list), old(mem), {})
      ensures Foreigners(list, mem, env) == Replay(old(Foreigners(list, mem, env)), effects)
      ensures View() == Interfered(old(View()), env, word, Enter(at, other, kind, obj))
      ensures effects == EffectOf(old(View()), env, Enter(at, other, kind, obj))
    {
      effects := [];
      var w := Wrapper(other, kind, 0, obj, false, false, false);
      mem := mem[at := w];
      var ok := RegisterHandle(at, other, kind);
      if ok {
        effects := [Entered(Entry(at, mem[at]))];
        EnterElsewhere(old(list), old(mem), env, at, mem[at]);
        assert mem == old(mem)[at := mem[at]];
      } else {
        mem := mem - {at};
        assert mem == old(mem);
      }
    }

    /** free(ref), of a wrapper that is not registered. */
    method FreeWrapper(a: Addr)
      requires Valid() && a !in list
      modifies this`mem
      ensures Valid() && mem == old(mem) - {a}
    {
      mem := mem - {a};
    }

    /** unregister_handle and free(ref), with which every successful cleanup ends. */
    method UnregisterAndFree(ref: Addr)
      requires Valid()
      modifies this`mem, this`next, this`handles, this`list
      ensures Valid() && list == Remove(old(list), ref) && mem == old(mem) - {ref}
    {
      RemoveExactly(list, mem, ref);
      UnregisterHandle(ref);
      FreeWrapper(ref);
    }

    /** Another environment unregisters and frees one of its wrappers. */
    method ReleaseElsewhere(env: Env, at: Addr) returns (ghost effects: seq<Effect>)
      requires Valid() && at in mem && mem[at].env != env
      modifies this`mem, this`next, this`handles, this`nextHandleId, this`list, this`trace
      ensures Valid() && trace == old(trace)
      ensures Remaining(list, mem, env, old(list), old(mem), {})
      ensures Foreigners(list, mem, env) == Replay(old(Foreigners(list, mem, env)), effects)
      ensures View() == Interfered(old(View()), env, word, Leave(at))
      ensures effects == EffectOf(old(View()), env, Leave(at))
    {
      effects := [Left(at)];
      LeaveElsewhere(list, mem, env, at);
      UnregisterAndFree(at);
    }

    /** The lock is free: other environments do what they like with their own handles. */
    method Interleave(env: Env, actions: seq<Foreign>) returns (ghost effects: seq<Effect>)
      requires Valid()
      modifies this`mem, this`next, this`handles, this`nextHandleId, this`list, this`trace
      ensures Valid() && trace == old(trace)
      ensures Remaining(list, mem, env, old(list), old(mem), {})
      ensures Foreigners(list, mem, env) == Replay(old(Foreigners(list, mem, env)), effects)
      ensures View() == AllInterfered(old(View()), env, word, actions)
      ensures effects == AllEffects(old(View()), env, word, actions)
    {
      effects := [];
      ghost var entries0 := Foreigners(list, mem, env);
      for i := 0 to |actions|
        invariant Valid() && trace == old(trace)
        invariant Remaining(list, mem, env, old(list), old(mem), {})
        invariant Foreigners(list, mem, env) == Replay(entries0, effects)
        invariant View() == AllInterfered(old(View()), env, word, actions[..i])
        invariant effects == AllEffects(old(View()), env, word, actions[..i])
      {
        ghost var list1, mem1 := list, mem;
        ghost var more := Interfere(env, actions[i]);
        ReplayBoth(entries0, effects, more);
        RemainingBoth(list, mem, env, list1, mem1, {}, old(list), old(mem), {});
        OneMoreAction(old(View()), env, word, actions, i);
        effects := effects + more;
      }
      assert actions[..|actions|] == actions;
    }

    /** One action of another environment, if it is possible. */
    method Interfere(env: Env, action: Foreign) returns (ghost effects: seq<Effect>)
      requires Valid()
      modifies this`mem, this`next, this`handles, this`nextHandleId, this`list, this`trace
      ensures Valid() && trace == old(trace)
      ensures Remaining(list, mem, env, old(list), old(mem), {})
      ensures Foreigners(list, mem, env) == Replay(old(Foreigners(list, mem, env)), effects)
      ensures View() == Interfered(old(View()), env, word, action) && effects == EffectOf(old(View()), env, action)
    {
      effects := [];
      match action {
        case Enter(at, other, kind, obj) =>
          if other != env && at != NULL && at !in mem { effects := WrapElsewhere(env, at, other, kind, obj); }
        case Leave(at) =>
          if at in mem && mem[at].env != env { effects := ReleaseElsewhere(env, at); }
      }
    }

    /** shutdown_and_free_sdk_node; `ok` is what the native shutdown returns if it is called. */
    method ShutdownAndFreeSdkNode(ref: Addr, ok: bool, teardown: bool)
      requires ref in mem
      modifies this`mem, this`trace
      ensures mem == old(mem)[ref := StoppedAndFreed(old(mem[ref]), ok)]
      ensures trace == old(trace) + StopEvents(old(mem[ref]), ok, teardown)
      ensures var w := old(mem[ref]);
        && mem[ref] == (if w.freed || !(w.attempted || ok) then w else w.(attempted := true, freed := true))
        && trace == old(trace) +
             (if w.freed then [] else if w.attempted then [NodeFree(w.obj)]
              else if ok then [NodeStop(w.env, w.obj, true, teardown), NodeFree(w.obj)]
              else [NodeStop(w.env, w.obj, false, teardown)])
    {
      if !mem[ref].freed {
        if !mem[ref].attempted {
          trace := trace + [NodeStop(mem[ref].env, mem[ref].obj, ok, teardown)];
          if !ok {
            assert mem == mem[ref := mem[ref]];
            return;
          }
          mem := mem[ref := mem[ref].(attempted := true)];
        }
        trace := trace + [NodeFree(mem[ref].obj)];
        mem := mem[ref := mem[ref].(freed := true)];
      }
    }

    /** Look the node up again, with the lock free before that. */
    method FindAgain(env: Env, id: nat, before: seq<Foreign>, ghost a: Addr)
      returns (node: Addr, ghost effects: seq<Effect>)
      requires Valid() && a in list && mem[a].env == env && mem[a].kind == Node && mem[a].id == id
      modifies this`mem, this`next, this`handles, this`nextHandleId, this`list, this`trace
      ensures Valid() && trace == old(trace) && node == a && a in list && mem[a] == old(mem[a])
      ensures Remaining(list, mem, env, old(list), old(mem), {})
      ensures Foreigners(list, mem, env) == Replay(old(Foreigners(list, mem, env)), effects)
      ensures View() == AllInterfered(old(View()), env, word, before)
      ensures effects == AllEffects(old(View()), env, word, before)
    {
      effects := Interleave(env, before);
      assert Own(mem, env, a);
      node := FindTeardownHandle(id, Node);
      FoundNode(list, mem, id, a, node);
    }

    /** Then stop it and free its native object. */
    method FindAndStop(env: Env, id: nat, ok: bool, before: seq<Foreign>, ghost a: Addr)
      returns (node: Addr, ghost effects: seq<Effect>)
      requires Valid() && a in list && mem[a].env == env && mem[a].kind == Node && mem[a].id == id
      modifies this`mem, this`next, this`handles, this`nextHandleId, this`list, this`trace
      ensures Valid() && node == a && a in list
      ensures mem[a] == StoppedAndFreed(old(mem[a]), ok)
      ensures trace == old(trace) + StopEvents(old(mem[a]), ok, true)
      ensures Remaining(list, mem, env, old(list), old(mem)[a := mem[a]], {})
      ensures Foreigners(list, mem, env) == Replay(old(Foreigners(list, mem, env)), effects)
      ensures a in AllInterfered(old(View()), env, word, before).mem
      ensures View() == StoppedNode(AllInterfered(old(View()), env, word, before), a, ok)
      ensures effects == AllEffects(old(View()), env, word, before)
    {
      node, effects := FindAgain(env, id, before, a);
      ghost var mem1 := mem;
      assert Own(mem1, env, a);
      ShutdownAndFreeSdkNode(node, ok, true);
      StoredNode(list, mem1, env, a, mem[a]);
      StoredRemaining(list, mem1, env, old(list), old(mem), a, mem[a]);
    }

    /** The first half of a round, up to the next locked section. */
    method StopNode(env: Env, id: nat, ok: bool, before: seq<Foreign>, during: seq<Foreign>, ghost a: Addr)
      returns (node: Addr, ghost effects: seq<Effect>)
      requires Valid() && a in list && mem[a].env == env && mem[a].kind == Node && mem[a].id == id
      modifies this`mem, this`next, this`handles, this`nextHandleId, this`list, this`trace
      ensures Valid() && node == a && a in list
      ensures mem[a] == StoppedAndFreed(old(mem[a]), ok)
      ensures trace == old(trace) + StopEvents(old(mem[a]), ok, true)
      ensures Remaining(list, mem, env, old(list), old(mem)[a := mem[a]], {})
      ensures Foreigners(list, mem, env) == Replay(old(Foreigners(list, mem, env)), effects)
      ensures a in AllInterfered(old(View()), env, word, before).mem
      ensures var u := StoppedNode(AllInterfered(old(View()), env, word, before), a, ok);
        && View() == AllInterfered(u, env, word, during)
        && effects == AllEffects(old(View()), env, word, before) + AllEffects(u, env, word, during)
    {
      node, effects := FindAndStop(env, id, ok, before, a);
      ghost var list2, mem2 := list, mem;
      ghost var more := Interleave(env, during);
      ReplayBoth(old(Foreigners(list, mem, env)), effects, more);
      effects := effects + more;
      assert Own(mem2, env, a);
      RemainingBoth(list, mem, env, list2, mem2, {}, old(list), old(mem)[a := mem2[a]], {});
    }

    /** The second half, for a node that was freed: unregister it and free its wrapper. */
    method ReleaseNode(env: Env, node: Addr, after: seq<Foreign>) returns (ghost effects: seq<Effect>)
      requires Valid() && node in list && mem[node].env == env
      modifies this`mem, this`next, this`handles, this`nextHandleId, this`list, this`trace
      ensures Valid() && trace == old(trace)
      ensures Remaining(list, mem, env, old(list), old(mem), {old(mem[node]).id})
      ensures Foreigners(list, mem, env) == Replay(old(Foreigners(list, mem, env)), effects)
      ensures View() == Dropped(AllInterfered(Unlisted(old(View()), node), env, word, after), node)
      ensures effects == AllEffects(Unlisted(old(View()), node), env, word, after)
    {
      LeaveOwn(list, mem, env, node);
      UnregisterHandle(node);
      effects := Interleave(env, after);
      assert Own(mem, env, node);
      NodeGone(env, node, old(list), old(mem), list, mem);
      ghost var mem1 := mem;
      FreeWrapper(node);
      ForeignersUpdate(list, mem1, env, mem);
    }

    /** One round of the drain, after its scan found `id`: the lock is free before each of its three sections. */
    method DrainNode(env: Env, id: nat, ok: bool, before: seq<Foreign>, during: seq<Foreign>, after: seq<Foreign>,
                     ghost a: Addr)
      returns (freed: bool, ghost effects: seq<Effect>)
      requires Valid() && a in list && mem[a].env == env && mem[a].kind == Node && mem[a].id == id
      modifies this`mem, this`next, this`handles, this`nextHandleId, this`list, this`trace
      ensures Valid()
      ensures freed == StoppedAndFreed(old(mem[a]), ok).freed
      ensures trace == old(trace) + StopEvents(old(mem[a]), ok, true)
      ensures Remaining(list, mem, env, old(list), old(mem), if freed then {id} else {})
      ensures Foreigners(list, mem, env) == Replay(old(Foreigners(list, mem, env)), effects)
      ensures var o := ServedAmid(old(View()), env, word, a, ok, before, during, after);
        View() == o.n && effects == o.effects
    {
      var node;
      node, effects := StopNode(env, id, ok, before, during, a);
      freed := mem[node].freed;
      if freed {
        ghost var list1, mem1 := list, mem;
        ghost var more := ReleaseNode(env, node, after);
        ReplayBoth(old(Foreigners(list, mem, env)), effects, more);
        effects := effects + more;
        RemainingBoth(list, mem, env, list1, mem1, {id}, old(list), old(mem)[a := mem1[a]], {});
        RemainingUpdated(list, mem, env, old(list), old(mem), a, mem1[a]);
      } else {
        assert old(mem)[a := mem[a]] == old(mem);
      }
    }

    /** What the drain has done to the registry it started from, with the nodes it has served so far. */
    ghost predicate DrainInv(env: Env, list0: seq<Addr>, mem0: Memory, trace0: seq<Event>, entries0: seq<Entry>,
                             stops: nat -> bool, cursor: nat, served: seq<Wrapper>, effects: seq<Effect>)
      requires Resident(list0, mem0)
      reads this
    {
      && Valid()
      && DrainedTo(env, list0, mem0, cursor, served)
      && Remaining(list, mem, env, list0, mem0, DrainedIds(served, stops))
      && trace == trace0 + StopCalls(served, stops)
      && Foreigners(list, mem, env) == Replay(entries0, effects)
    }

    /** Find the next node, with the lock free before the scan. */
    method ScanRound(env: Env, cursor: nat, others: seq<Foreign>, stops: nat -> bool, ghost list0: seq<Addr>,
                     ghost mem0: Memory,
                     ghost trace0: seq<Event>, ghost entries0: seq<Entry>,
                     ghost served: seq<Wrapper>, ghost effects0: seq<Effect>)
      returns (id: nat, ghost effects: seq<Effect>, ghost a: Addr)
      requires Resident(list0, mem0) && DrainInv(env, list0, mem0, trace0, entries0, stops, cursor, served, effects0)
      modifies this`mem, this`next, this`handles, this`nextHandleId, this`list, this`trace
      ensures DrainInv(env, list0, mem0, trace0, entries0, stops, cursor, served, effects)
      ensures View() == AllInterfered(old(View()), env, word, others)
      ensures effects == effects0 + AllEffects(old(View()), env, word, others)
      ensures id == NextNode(list, mem, env, cursor)
      ensures forall w :: w in Nodes(list0, mem0, env, cursor) ==> id != 0 && id <= w.id
      ensures id != 0 ==>
        a in list && IsNode(mem[a], env) && mem[a].id == id && mem[a] in Nodes(list0, mem0, env, cursor)
    {
      ghost var list1, mem1 := list, mem;
      ghost var more := Interleave(env, others);
      ReplayBoth(entries0, effects0, more);
      effects := effects0 + more;
      RemainingBoth(list, mem, env, list1, mem1, {}, list0, mem0, DrainedIds(served, stops));
      id := NextEnvironmentNode(env, cursor);
      NextServed(list, mem, env, list0, mem0, cursor, served, stops, id);
      a := NULL;
      if id != 0 {
        a :| a in list && IsNode(mem[a], env) && mem[a].id == id;
      }
    }

    /** Stop the node that was found, and take it out if that succeeded. */
    method ServeRound(env: Env, cursor: nat, id: nat, stops: nat -> bool, ok: bool, before: seq<Foreign>,
                      during: seq<Foreign>, after: seq<Foreign>,
                      ghost a: Addr, ghost list0: seq<Addr>, ghost mem0: Memory,
                      ghost trace0: seq<Event>, ghost entries0: seq<Entry>,
                      ghost served: seq<Wrapper>, ghost effects0: seq<Effect>)
      returns (freed: bool, ghost effects: seq<Effect>)
      requires Resident(list0, mem0) && Descending(list0, mem0)
      requires DrainInv(env, list0, mem0, trace0, entries0, stops, cursor, served, effects0)
      requires a in list && IsNode(mem[a], env) && mem[a].id == id && mem[a] in Nodes(list0, mem0, env, cursor)
      requires forall w :: w in Nodes(list0, mem0, env, cursor) ==> id <= w.id
      requires ok == stops(id)
      modifies this`mem, this`next, this`handles, this`nextHandleId, this`list, this`trace
      ensures DrainInv(env, list0, mem0, trace0, entries0, stops, id, served + [old(mem[a])], effects)
      ensures freed == Drained(old(mem[a]), stops) == StoppedAndFreed(old(mem[a]), ok).freed
      ensures |Nodes(list0, mem0, env, id)| < |Nodes(list0, mem0, env, cursor)|
      ensures var o := ServedAmid(old(View()), env, word, a, ok, before, during, after);
        View() == o.n && effects == effects0 + o.effects
    {
      ghost var w, list1, mem1 := mem[a], list, mem;
      ghost var more;
      freed, more := DrainNode(env, id, ok, before, during, after, a);
      ReplayBoth(entries0, effects0, more);
      effects := effects0 + more;
      RoundDone(env, list, mem, list1, mem1, list0, mem0, cursor, served, stops, w);
      Appended(trace0, StopCalls(served, stops), StopEvents(w, stops(id), true));
    }

    /** ScanRound, in a drain that comes to `d`. */
    method ScanTraced(env: Env, cursor: nat, others: nat -> Round, ghost log: seq<Foreign>, stops: nat -> bool,
                      ghost d: Turn, ghost all: bool, ghost list0: seq<Addr>, ghost mem0: Memory,
                      ghost trace0: seq<Event>, ghost entries0: seq<Entry>,
                      ghost served: seq<Wrapper>, ghost effects0: seq<Effect>)
      returns (id: nat, ghost effects: seq<Effect>, ghost a: Addr)
      requires Resident(list0, mem0) && DrainInv(env, list0, mem0, trace0, entries0, stops, cursor, served, effects0)
      requires Heads(Turn(View(), cursor, all, log, effects0), env, word, stops, others, d)
      modifies this`mem, this`next, this`handles, this`nextHandleId, this`list, this`trace
      ensures DrainInv(env, list0, mem0, trace0, entries0, stops, cursor, served, effects)
      ensures forall w :: w in Nodes(list0, mem0, env, cursor) ==> id != 0 && id <= w.id
      ensures id != 0 ==>
        a in list && IsNode(mem[a], env) && mem[a].id == id && mem[a] in Nodes(list0, mem0, env, cursor)
      ensures id == NextNode(list, mem, env, cursor)
      ensures HeadsOn(Turn(View(), cursor, all, log + others(cursor).scan, effects), env, word, stops, others, d)
    {
      HeadsScan(Turn(View(), cursor, all, log, effects0), env, word, stops, others, d);
      id, effects, a := ScanRound(env, cursor, others(cursor).scan, stops, list0, mem0, trace0, entries0, served,
                                  effects0);
    }

    /** ServeRound, in a drain that comes to `d`. */
    method ServeTraced(env: Env, cursor: nat, id: nat, stops: nat -> bool, others: nat -> Round,
                       ghost log: seq<Foreign>, ghost a: Addr, ghost d: Turn, ghost all: bool,
                       ghost list0: seq<Addr>, ghost mem0: Memory,
                       ghost trace0: seq<Event>, ghost entries0: seq<Entry>,
                       ghost served: seq<Wrapper>, ghost effects0: seq<Effect>)
      returns (freed: bool, ghost log1: seq<Foreign>, ghost effects: seq<Effect>)
      requires Resident(list0, mem0) && Descending(list0, mem0)
      requires DrainInv(env, list0, mem0, trace0, entries0, stops, cursor, served, effects0)
      requires a in list && IsNode(mem[a], env) && mem[a].id == id && mem[a] in Nodes(list0, mem0, env, cursor)
      requires forall w :: w in Nodes(list0, mem0, env, cursor) ==> id <= w.id
      requires id == NextNode(list, mem, env, cursor) != 0
      requires HeadsOn(Turn(View(), cursor, all, log, effects0), env, word, stops, others, d)
      modifies this`mem, this`next, this`handles, this`nextHandleId, this`list, this`trace
      ensures DrainInv(env, list0, mem0, trace0, entries0, stops, id, served + [old(mem[a])], effects)
      ensures freed == Drained(old(mem[a]), stops)
      ensures |Nodes(list0, mem0, env, id)| < |Nodes(list0, mem0, env, cursor)|
      ensures Heads(Turn(View(), id, all && freed, log1, effects), env, word, stops, others, d)
    {
      ghost var q := Turn(View(), cursor, all, log, effects0);
      var ok, fs := stops(id), others(cursor);
      HeadsServe(q, env, word, stops, others, d);
      NextTurnIs(q, env, word, a, ok, fs);
      ghost var r := NextTurn(q, env, word, ok, fs);
      log1 := r.log;
      freed, effects := ServeRound(env, cursor, id, stops, ok, fs.find, fs.unlink, fs.free, a, list0, mem0, trace0,
                                   entries0, served, effects0);
      assert r == Turn(View(), id, all && freed, log1, effects);
    }

    /** The loop, with the nodes in the order they are stopped, and where it ends. */
    method DrainAll(env: Env, stops: nat -> bool, others: nat -> Round)
      returns (stopped: bool, ghost d: Turn, ghost served: seq<Wrapper>, ghost effects: seq<Effect>)
      requires Valid()
      modifies this`mem, this`next, this`handles, this`nextHandleId, this`list, this`trace
      ensures DrainInv(env, old(list), old(mem), old(trace), old(Foreigners(list, mem, env)), stops, d.cursor, served,
                       effects)
      ensures forall w :: w !in Nodes(old(list), old(mem), env, d.cursor)
      ensures stopped == AllDrained(served, stops)
      ensures d == DrainAmid(old(View()), env, word, stops, others)
      ensures d == Turn(View(), d.cursor, stopped, d.log, effects)
    {
      stopped, served, effects := true, [], [];
      var cursor := 0;
      ghost var log := [];
      ghost var list0, mem0, trace0, entries0 := list, mem, trace, Foreigners(list, mem, env);
      d := DrainAmid(View(), env, word, stops, others);
      NoneServed(list, mem, env, stops);
      while true
        invariant DrainInv(env, list0, mem0, trace0, entries0, stops, cursor, served, effects)
        invariant stopped == AllDrained(served, stops)
        invariant Heads(Turn(View(), cursor, stopped, log, effects), env, word, stops, others, d)
        decreases |Nodes(list0, mem0, env, cursor)|
      {
        var id, freed;
        ghost var a;
        id, effects, a :=
          ScanTraced(env, cursor, others, log, stops, d, stopped, list0, mem0, trace0, entries0, served, effects);
        log := log + others(cursor).scan;
        if id == 0 {
          HeadsEnd(Turn(View(), cursor, stopped, log, effects), env, word, stops, others, d);
          break;
        }
        ghost var w := mem[a];
        freed, log, effects :=
          ServeTraced(env, cursor, id, stops, others, log, a, d, stopped, list0, mem0, trace0, entries0, served,
                      effects);
        if !freed {
          stopped := false;
        }
        OneMoreDrained(served, w, stops);
        cursor := id;
        served := served + [w];
      }
    }

    /** shutdown_environment_nodes.  `stops` is what native shutdown answers for each node, `others` what the other
        environments do in each round while the lock is free, and `effects` what they thereby achieved; the outcome is
        that of the function DrainAmid, and of the function Drain if they do nothing.  `served` are the nodes in the
        order they were stopped. */
    method ShutdownEnvironmentNodes(env: Env, stops: nat -> bool, others: nat -> Round)
      returns (stopped: bool, ghost served: seq<Wrapper>, ghost effects: seq<Effect>)
      requires Valid()
      modifies this`mem, this`next, this`handles, this`nextHandleId, this`list, this`trace
      ensures Valid()
      ensures Ascending(served)
      ensures forall w :: w in served <==> w in Nodes(old(list), old(mem), env, 0)
      ensures stopped == AllDrained(served, stops)
      ensures Remaining(list, mem, env, old(list), old(mem), DrainedIds(served, stops))
      ensures trace == old(trace) + StopCalls(served, stops)
      ensures var d := DrainAmid(old(View()), env, word, stops, others);
        && View() == d.n && stopped == d.all && effects == d.effects
        && ComeFrom(effects, d.log, env)
      ensures Foreigners(list, mem, env) == Replay(old(Foreigners(list, mem, env)), effects)
      ensures Strangers(mem, env) == ReplayMemory(old(Strangers(mem, env)), effects)
      ensures Silent(others) ==> Drain(old(View()), env, 0, stops) == Drainage(View(), stopped)
    {
      ghost var d;
      stopped, d, served, effects := DrainAll(env, stops, others);
      AllServed(env, old(list), old(mem), d.cursor, served);
      DrainComesFrom(old(View()), env, word, stops, others);
      DrainStrangers(old(View()), env, word, stops, others);
      if Silent(others) { SilentDrain(old(View()), env, word, stops, others); }
    }

    // ---------- The callbacks and finalizers ----------

    ghost function View(): Native
      reads this
    {
      Native(mem, list, hooks, trace, nextHandleId)
    }

    /** Setting flags of a wrapper. */
    method SetFlags(ref: Addr, w: Wrapper)
      requires Valid() && ref in mem && HookOf(w) == HookOf(mem[ref])
      modifies this`mem
      ensures Valid() && mem == old(mem)[ref := w]
    {
      mem := mem[ref := w];
    }

    /** shutdown_and_free_sdk_node on a wrapper that may be registered. */
    method StopAndFree(ref: Addr, ok: bool, teardown: bool) returns (freed: bool)
      requires Valid() && ref in mem
      modifies this`mem, this`trace
      ensures Valid() && freed == StoppedAndFreed(old(mem[ref]), ok).freed
      ensures mem == old(mem)[ref := StoppedAndFreed(old(mem[ref]), ok)]
      ensures trace == old(trace) + StopEvents(old(mem[ref]), ok, teardown)
    {
      ShutdownAndFreeSdkNode(ref, ok, teardown);
      freed := mem[ref].freed;
    }

    /** js_remove_teardown_callback for a flagged wrapper, and clearing its flag. */
    method Unhook(ref: Addr)
      requires Valid() && ref in mem
      modifies this`mem, this`hooks
      ensures Valid() && hooks == Unhooked(old(hooks), old(mem[ref]))
      ensures mem == old(mem)[ref := old(mem[ref]).(hooked := false)]
    {
      if mem[ref].hooked {
        hooks := hooks - {HookOf(mem[ref])};
        SetFlags(ref, mem[ref].(hooked := false));
      }
    }

    /** sdk_node_teardown, of the node it found. */
    method TearDownNode(ref: Addr, ok: bool)
      requires Valid() && ref in list
      modifies this`mem, this`next, this`handles, this`list, this`trace
      ensures Valid()
      ensures var w := old(mem[ref]).(hooked := false);
        View() == if StoppedAndFreed(w, ok).freed then Gone(old(View()), ref, hooks, StopEvents(w, ok, true))
                  else Kept(old(View()), ref, w, StopEvents(w, ok, true))
    {
      ghost var mem0, w := mem, mem[ref].(hooked := false);
      SetFlags(ref, mem[ref].(hooked := false));
      var freed := StopAndFree(ref, ok, true);
      if freed {
        StoredThenFreed(mem0, ref, w, mem[ref]);
        UnregisterAndFree(ref);
      } else {
        StoredTwice(mem0, ref, w, mem[ref]);
      }
    }

    /** sdk_node_teardown. */
    method SdkNodeTeardown(id: nat, ok: bool)
      requires Valid()
      modifies this
      ensures Valid() && nextHandleId == old(nextHandleId)
      ensures View() == NodeTornDown(old(View()), id, ok)
      ensures forall a :: a in old(list) && old(mem)[a].id == id && old(mem)[a].kind == Node ==>
        && GoneOrKept(old(View()), View(), a, old(mem)[a].(hooked := false), ok, true)
        && hooks == old(hooks)
      ensures (forall a :: a in old(list) ==> old(mem)[a].id != id || old(mem)[a].kind != Node) ==>
        View() == old(View())
    {
      forall a | a in old(list) && old(mem)[a].id == id && old(mem)[a].kind == Node
        ensures GoneOrKept(old(View()), NodeTornDown(old(View()), id, ok), a, old(mem)[a].(hooked := false), ok, true)
        ensures NodeTornDown(old(View()), id, ok).hooks == old(hooks)
      {
        TornDownIs(View(), id, ok, a);
      }
      var ref := FindTeardownHandle(id, Node);
      if ref != NULL { TearDownNode(ref, ok); }
    }

    /** sdk_node_destructor, of the node it found. */
    method FinalizeNode(ref: Addr, ok: bool)
      requires Valid() && ref in list
      modifies this
      ensures Valid() && nextHandleId == old(nextHandleId)
      ensures var w := old(mem[ref]);
        View() == if StoppedAndFreed(w, ok).freed
                  then Gone(old(View()), ref, Unhooked(old(hooks), w), StopEvents(w, ok, false))
                  else Kept(old(View()), ref, w, StopEvents(w, ok, false))
    {
      var freed := StopAndFree(ref, ok, false);
      if !freed {
        return;
      }
      ghost var w := mem[ref];
      Unhook(ref);
      StoredThenFreed(old(mem), ref, w, mem[ref]);
      UnregisterAndFree(ref);
    }

    /** sdk_node_destructor. */
    method SdkNodeDestructor(env: Env, data: Addr, hint: nat, ok: bool)
      requires Valid()
      modifies this
      ensures Valid() && nextHandleId == old(nextHandleId)
      ensures View() == NodeFinalized(old(View()), env, data, hint, ok)
      ensures var found := old(FindFinalizer(list, mem, env, data, hint, Node)).Some?;
        && (found && data !in mem && TakesBack(old(hooks), old(mem), data) ==>
              hooks == old(hooks) - {Hook(env, Node, hint)})
        && (!found || data in mem ==> hooks == old(hooks))
      ensures if old(data in list && mem[data].env == env && mem[data].kind == Node && mem[data].id == hint)
              then GoneOrKept(old(View()), View(), data, old(mem)[data], ok, false)
              else View() == old(View())
    {
      if Owns(list, mem, env, data, Node) && mem[data].id == hint { FinalizedIs(View(), env, data, hint, ok); }
      var ref := FindFinalizerHandle(env, data, hint, Node);
      if ref != NULL { FinalizeNode(ref, ok); }
    }

    /** free_native_external_signer, unless that was done. */
    method FreeSigner(ref: Addr)
      requires Valid() && ref in mem
      modifies this`mem, this`trace
      ensures Valid() && mem == old(mem)[ref := old(mem[ref]).(freed := true)]
      ensures trace == old(trace) + if old(mem[ref]).freed then [] else [SignerFree(old(mem[ref]).obj)]
    {
      if !mem[ref].freed {
        trace := trace + [SignerFree(mem[ref].obj)];
        SetFlags(ref, mem[ref].(freed := true));
      }
    }

    /** signer_destructor, of the signer it found. */
    method FinalizeSigner(ref: Addr)
      requires Valid() && ref in list
      modifies this
      ensures Valid() && nextHandleId == old(nextHandleId)
      ensures var w := old(mem[ref]);
        View() == Gone(old(View()), ref, Unhooked(old(hooks), w), if w.freed then [] else [SignerFree(w.obj)])
    {
      Unhook(ref);
      ghost var w := mem[ref];
      FreeSigner(ref);
      StoredThenFreed(old(mem), ref, w, mem[ref]);
      UnregisterAndFree(ref);
    }

    /** signer_destructor. */
    method SignerDestructor(env: Env, data: Addr, hint: nat)
      requires Valid()
      modifies this
      ensures Valid() && nextHandleId == old(nextHandleId)
      ensures View() == SignerFinalized(old(View()), env, data, hint)
      ensures if old(FindFinalizer(list, mem, env, data, hint, Signer)).None? then hooks == old(hooks)
              else
                && data !in mem
                && (TakesBack(old(hooks), old(mem), data) ==> hooks == old(hooks) - {Hook(env, Signer, hint)})
      ensures if old(data in list && mem[data].env == env && mem[data].kind == Signer && mem[data].id == hint) then
                && mem == old(mem) - {data} && (forall b :: b in list <==> b in old(list) && b != data)
                && trace == old(trace) + if old(mem)[data].freed then [] else [SignerFree(old(mem)[data].obj)]
              else View() == old(View())
    {
      RemoveExactly(list, mem, data);
      var ref := FindFinalizerHandle(env, data, hint, Signer);
      if ref != NULL { FinalizeSigner(ref); }
    }

    /** signer_teardown after a successful drain: revoke the signer, and give it up if that succeeded. */
    method RevokeSigner(ref: Addr, ok: bool) returns (released: bool)
      requires Valid() && ref in list && mem[ref].kind == Signer
      modifies this`mem, this`next, this`handles, this`list, this`trace
      ensures Valid() && released == (old(mem[ref]).freed || ok)
      ensures trace == old(trace) + SignerTeardownEvents(old(mem[ref]), ok)
      ensures if released then list == Remove(old(list), ref) && mem == old(mem) - {ref}
              else list == old(list) && mem == old(mem)
    {
      if !mem[ref].freed {
        trace := trace + [SignerStop(mem[ref].env, mem[ref].obj, ok, true)];
        if !ok {
          return false;
        }
        trace := trace + [SignerFree(mem[ref].obj)];
        SetFlags(ref, mem[ref].(freed := true));
      }
      StoredThenFreed(old(mem), ref, mem[ref], mem[ref]);
      UnregisterAndFree(ref);
      return true;
    }

    /** Revoking the signer if the drain has left none of its environment's nodes. */
    method RevokeDrained(ref: Addr, stopped: bool, ok: bool, ghost env: Env, ghost list0: seq<Addr>,
                         ghost mem0: Memory, ghost gone: set<nat>)
      requires Valid() && Resident(list0, mem0) && Descending(list0, mem0)
      requires ref in list0 && Own(mem0, env, ref) && Remaining(list, mem, env, list0, mem0, gone)
      requires ref in list && mem[ref] == mem0[ref] && mem[ref].kind == Signer
      modifies this`mem, this`next, this`handles, this`list, this`trace
      ensures Valid() && trace == old(trace) + if stopped then SignerTeardownEvents(mem0[ref], ok) else []
      ensures View() == SignerRevoked(Drainage(old(View()), stopped), ref, mem0[ref], ok)
      ensures Remaining(list, mem, env, list0, mem0, gone + Revoked(mem0[ref], stopped, ok))
      ensures Foreigners(list, mem, env) == old(Foreigners(list, mem, env))
      ensures Strangers(mem, env) == old(Strangers(mem, env))
    {
      assert gone + {} == gone;
      if !stopped {
        return;
      }
      ghost var list1, mem1 := list, mem;
      LeaveOwn(list, mem, env, ref);
      var released := RevokeSigner(ref, ok);
      if released {
        ForeignersUpdate(list, mem1, env, mem);
        StrangersOwnGone(mem1, env, ref);
        SignerGone(env, ref, list0, mem0, list1, mem1, gone);
      }
    }

    /** signer_teardown once it found its entry and cleared its flag. */
    method DrainAndRevoke(ref: Addr, stops: nat -> bool, ok: bool, others: nat -> Round)
      returns (stopped: bool, ghost served: seq<Wrapper>, ghost effects: seq<Effect>)
      requires Valid() && ref in list && mem[ref].kind == Signer
      modifies this
      ensures Valid() && hooks == old(hooks)
      ensures Ascending(served) && (forall v :: v in served <==> v in Nodes(old(list), old(mem), old(mem[ref]).env, 0))
      ensures stopped == (forall v :: v in served ==> Drained(v, stops))
      ensures trace == old(trace) + StopCalls(served, stops)
                       + (if stopped then SignerTeardownEvents(old(mem[ref]), ok) else [])
      ensures Remaining(list, mem, old(mem[ref]).env, old(list), old(mem),
                        DrainedIds(served, stops) + Revoked(old(mem[ref]), stopped, ok))
      ensures Foreigners(list, mem, old(mem[ref]).env) == Replay(old(Foreigners(list, mem, mem[ref].env)), effects)
      ensures Strangers(mem, old(mem[ref]).env) == ReplayMemory(old(Strangers(mem, mem[ref].env)), effects)
      ensures var d := RevokedAmid(old(View()), word, ref, stops, ok, others);
        View() == d.n && effects == d.effects && ComeFrom(effects, d.log, old(mem[ref]).env)
      ensures Silent(others) ==>
        View() == SignerRevoked(Drain(old(View()), old(mem[ref]).env, 0, stops), ref, old(mem[ref]), ok)
    {
      var env := mem[ref].env;
      ghost var list0, mem0 := list, mem;
      stopped, served, effects := ShutdownEnvironmentNodes(env, stops, others);
      SignerSurvives(env, list0, mem0, list, mem, served, stops, ref);
      RevokeDrained(ref, stopped, ok, env, list0, mem0, DrainedIds(served, stops));
    }

    /** signer_teardown.  The nodes of the environment are all stopped before the signer is, and a node that does not
        stop keeps the signer registered, unrevoked and unfreed. */
    method SignerTeardown(id: nat, stops: nat -> bool, ok: bool, others: nat -> Round)
      returns (ref: Addr, stopped: bool, ghost served: seq<Wrapper>, ghost effects: seq<Effect>)
      requires Valid()
      modifies this
      ensures Valid() && hooks == old(hooks)
      ensures ref == Address(FindTeardown(old(list), old(mem), id, Signer))
      ensures ref == NULL ==> View() == old(View())
      ensures ref != NULL ==>
        var w := old(mem)[ref];
        && Ascending(served) && (forall v :: v in served <==> v in Nodes(old(list), old(mem), w.env, 0))
        && stopped == (forall v :: v in served ==> Drained(v, stops))
        && trace == old(trace) + StopCalls(served, stops) +
             (if !stopped || w.freed then []
              else if ok then [SignerStop(w.env, w.obj, true, true), SignerFree(w.obj)]
              else [SignerStop(w.env, w.obj, false, true)])
        && Remaining(list, mem, w.env, old(list), old(mem)[ref := w.(hooked := false)],
                     DrainedIds(served, stops) + Revoked(w, stopped, ok))
        && Foreigners(list, mem, w.env) == Replay(old(Foreigners(list, mem, w.env)), effects)
        && Strangers(mem, w.env) == ReplayMemory(old(Strangers(mem, w.env)), effects)
      ensures var d := SignerTornDownAmid(old(View()), word, id, stops, ok, others);
        && View() == d.n && effects == d.effects
        && (ref != NULL ==> ComeFrom(effects, d.log, old(mem)[ref].env))
      ensures Silent(others) ==> View() == SignerTornDown(old(View()), id, stops, ok)
    {
      stopped, served, effects := true, [], [];
      ref := FindTeardownHandle(id, Signer);
      if ref == NULL {
        return;
      }
      UnhookedNodes(list, mem, mem[ref].env, ref);
      SetFlags(ref, mem[ref].(hooked := false));
      stopped, served, effects := DrainAndRevoke(ref, stops, ok, others);
    }

    // ---------- Wrapping ----------

    /** js_add_teardown_callback and js_create_external for the wrapper at the head of the list; when one of them fails
        the wrapper is unregistered again. */
    method Publish(at: Addr, hookOk: bool, exportOk: bool) returns (ok: bool)
      requires Valid() && list != [] && list[0] == at && HookOf(mem[at]) !in hooks && !mem[at].hooked
      modifies this`mem, this`next, this`handles, this`list, this`hooks
      ensures Valid() && ok == (hookOk && exportOk)
      ensures at in mem && mem == old(mem)[at := mem[at]] && mem[at].(hooked := false) == old(mem[at])
      ensures ok ==> mem[at].hooked && list == old(list) && hooks == old(hooks) + {HookOf(mem[at])}
      ensures !ok ==> list == old(list)[1..] && hooks == old(hooks)
    {
      ok := hookOk;
      if ok {
        hooks := hooks + {HookOf(mem[at])};
        SetFlags(at, mem[at].(hooked := true));
        ok := exportOk;
        if !ok {
          hooks := hooks - {HookOf(mem[at])};
          assert hooks == old(hooks);
        }
      }
      if !ok {
        UnregisterHandle(at);
      }
    }

    /** malloc, register_handle and what follows, each of which may fail; what has been done by then is taken back,
        except that the caller still has to give up the native object and the memory. */
    method TryWrap(env: Env, kind: Kind, obj: Obj, at: Addr, hookOk: bool, exportOk: bool) returns (ok: bool)
      requires Valid() && at != NULL && at !in mem
      modifies this
      ensures Valid() && trace == old(trace)
      ensures ok == (old(nextHandleId) != 0 && hookOk && exportOk)
      ensures at in mem && mem == old(mem)[at := mem[at]]
      ensures mem[at].env == env && mem[at].kind == kind && mem[at].obj == obj && !mem[at].freed && !mem[at].attempted
      ensures ok ==> mem[at].id == old(nextHandleId) && mem[at].hooked && list == [at] + old(list)
      ensures ok ==> hooks == old(hooks) + {HookOf(mem[at])}
      ensures !ok ==> list == old(list) && hooks == old(hooks)
      ensures nextHandleId == Counted(old(nextHandleId), word)
    {
      mem := mem[at := Wrapper(env, kind, 0, obj, false, false, false)];
      ok := RegisterHandle(at, env, kind);
      if ok {
        ok := Publish(at, hookOk, exportOk);
      }
    }

    /** wrap_sdk_node: on failure the node is stopped and freed, and its wrapper released. */
    method WrapSdkNode(env: Env, obj: Obj, at: Option<Addr>, hookOk: bool, exportOk: bool, stopOk: bool)
      returns (external: Option<External>)
      requires Valid() && (at.Some? ==> at.value != NULL && at.value !in mem)
      modifies this
      ensures Valid()
      ensures external.Some? <==> at.Some? && old(nextHandleId) != 0 && hookOk && exportOk
      ensures View() == if at.None? then old(View()).(trace := old(trace) + [NodeFree(obj)])
                        else WrapOutcome(old(View()), env, Node, obj, at.value, hookOk, exportOk, stopOk, word)
      ensures external.Some? ==>
        external.value == External(env, at.value, Node, old(nextHandleId)) && at.value !in old(mem)
      ensures external.None? ==> mem == old(mem) && list == old(list) && hooks == old(hooks)
      ensures trace == old(trace) +
        if external.Some? then [] else if at.None? then [NodeFree(obj)]
        else if stopOk then [NodeStop(env, obj, true, false), NodeFree(obj)] else [NodeStop(env, obj, false, false)]
    {
      if at.None? {
        trace := trace + [NodeFree(obj)];
        return None;
      }
      var ok := TryWrap(env, Node, obj, at.value, hookOk, exportOk);
      if ok {
        return Some(External(env, at.value, Node, mem[at.value].id));
      }
      ShutdownAndFreeSdkNode(at.value, stopOk, false);
      mem := mem - {at.value};
      assert mem == old(mem);
      return None;
    }

    /** wrap_signer: on failure the signer is freed, and its wrapper released. */
    method WrapSigner(env: Env, obj: Obj, at: Option<Addr>, hookOk: bool, exportOk: bool)
      returns (external: Option<External>)
      requires Valid() && (at.Some? ==> at.value != NULL && at.value !in mem)
      modifies this
      ensures Valid()
      ensures external.Some? <==> at.Some? && old(nextHandleId) != 0 && hookOk && exportOk
      ensures View() == if at.None? then old(View()).(trace := old(trace) + [SignerFree(obj)])
                        else WrapOutcome(old(View()), env, Signer, obj, at.value, hookOk, exportOk, true, word)
      ensures external.Some? ==>
        external.value == External(env, at.value, Signer, old(nextHandleId)) && at.value !in old(mem)
      ensures external.None? ==> mem == old(mem) && list == old(list) && hooks == old(hooks)
      ensures trace == old(trace) + if external.Some? then [] else [SignerFree(obj)]
    {
      if at.None? {
        trace := trace + [SignerFree(obj)];
        return None;
      }
      var ok := TryWrap(env, Signer, obj, at.value, hookOk, exportOk);
      if ok {
        return Some(External(env, at.value, Signer, mem[at.value].id));
      }
      trace := trace + [SignerFree(obj)];
      mem := mem - {at.value};
      assert mem == old(mem);
      return None;
    }
  }

  // ---------- What the drain promises ----------

  ghost predicate AllDrained(served: seq<Wrapper>, stops: nat -> bool) {
    forall w :: w in served ==> Drained(w, stops)
  }

  lemma OneMoreDrained(served: seq<Wrapper>, w: Wrapper, stops: nat -> bool)
    ensures AllDrained(served + [w], stops) <==> AllDrained(served, stops) && Drained(w, stops)
  {
    assert w in served + [w] && forall v :: v in served ==> v in served + [w];
  }

  /** The identity a signer's teardown releases, besides its environment's nodes. */
  ghost function Revoked(w: Wrapper, stopped: bool, ok: bool): set<nat> {
    if stopped && (w.freed || ok) then {w.id} else {}
  }

  /** The registered nodes of `env` with an identity above the cursor. */
  ghost function Nodes(list: seq<Addr>, mem: Memory, env: Env, cursor: nat): set<Wrapper>
    requires Resident(list, mem)
  {
    set a | a in list && IsNode(mem[a], env) && mem[a].id > cursor :: mem[a]
  }

  ghost predicate Ascending(served: seq<Wrapper>) {
    forall i, j :: 0 <= i < j < |served| ==> served[i].id < served[j].id
  }

  ghost function DrainedIds(served: seq<Wrapper>, stops: nat -> bool): set<nat> {
    set w | w in served && Drained(w, stops) :: w.id
  }

  /** The native calls of the drain. */
  ghost function StopCalls(served: seq<Wrapper>, stops: nat -> bool): seq<Event>
    decreases |served|
  {
    if served == [] then []
    else
      var n := |served| - 1;
      StopCalls(served[..n], stops) + StopEvents(served[n], stops(served[n].id), true)
  }

  /** The drain has served exactly the nodes with an identity up to the cursor, in ascending order. */
  ghost predicate DrainedTo(env: Env, list0: seq<Addr>, mem0: Memory, cursor: nat, served: seq<Wrapper>)
    requires Resident(list0, mem0)
  {
    && Ascending(served)
    && (forall w :: w in served ==> w.id <= cursor && w in Nodes(list0, mem0, env, 0))
    && (forall w :: w in Nodes(list0, mem0, env, 0) && w.id <= cursor ==> w in served)
  }

  lemma AllServed(env: Env, list0: seq<Addr>, mem0: Memory, cursor: nat, served: seq<Wrapper>)
    requires Resident(list0, mem0) && DrainedTo(env, list0, mem0, cursor, served)
    requires forall w :: w !in Nodes(list0, mem0, env, cursor)
    ensures Ascending(served) && forall w :: w in served <==> w in Nodes(list0, mem0, env, 0)
  {
    assert forall w :: w in Nodes(list0, mem0, env, 0) && w.id > cursor ==> w in Nodes(list0, mem0, env, cursor);
  }

  /** The wrappers of `env`, and which of them are registered, are as they were, except that the entries with an
      identity in `gone` have been unregistered and released. */
  ghost predicate Remaining(list: seq<Addr>, mem: Memory, env: Env, list0: seq<Addr>, mem0: Memory, gone: set<nat>) {
    && (forall a :: Own(mem, env, a) <==> Own(mem0, env, a) && !(a in list0 && mem0[a].id in gone))
    && (forall a :: Own(mem, env, a) ==> mem[a] == mem0[a] && (a in list <==> a in list0))
  }

  /** The entries of the other environments, in the order of the list. */
  ghost function Foreigners(list: seq<Addr>, mem: Memory, env: Env): seq<Entry>
    requires Resident(list, mem)
  {
    if list == [] then []
    else
      assert list == [list[0]] + list[1..];
      (if mem[list[0]].env != env then [Entry(list[0], mem[list[0]])] else []) + Foreigners(list[1..], mem, env)
  }

  ghost function Without(entries: seq<Entry>, a: Addr): seq<Entry> {
    if entries == [] then []
    else if entries[0].addr == a then entries[1..]
    else [entries[0]] + Without(entries[1..], a)
  }

  ghost function Apply(entries: seq<Entry>, effect: Effect): seq<Entry> {
    match effect
    case Entered(entry) => [entry] + entries
    case Left(a) => Without(entries, a)
  }

  ghost function Replay(entries: seq<Entry>, effects: seq<Effect>): seq<Entry>
    decreases |effects|
  {
    if effects == [] then entries
    else Apply(Replay(entries, effects[..|effects| - 1]), effects[|effects| - 1])
  }

  lemma ReplayMore(entries: seq<Entry>, effects: seq<Effect>, effect: Effect)
    ensures Replay(entries, effects + [effect]) == Apply(Replay(entries, effects), effect)
  {
    assert (effects + [effect])[..|effects|] == effects;
  }

  lemma ReplayOne(entries: seq<Entry>, effect: Effect)
    ensures Replay(entries, [effect]) == Apply(entries, effect)
  {
    assert [] + [effect] == [effect];
    ReplayMore(entries, [], effect);
  }

  lemma NoneServed(list: seq<Addr>, mem: Memory, env: Env, stops: nat -> bool)
    requires Resident(list, mem)
    ensures DrainedTo(env, list, mem, 0, [])
    ensures Remaining(list, mem, env, list, mem, DrainedIds([], stops))
  {
    assert DrainedIds([], stops) == {};
  }

  /** A node above the cursor has not been touched. */
  lemma StillThere(list: seq<Addr>, mem: Memory, env: Env, list0: seq<Addr>, mem0: Memory, cursor: nat,
                   served: seq<Wrapper>, stops: nat -> bool, a: Addr)
    requires Resident(list, mem) && Resident(list0, mem0)
    requires Remaining(list, mem, env, list0, mem0, DrainedIds(served, stops))
    requires forall w :: w in served ==> w.id <= cursor
    ensures (a in list && IsNode(mem[a], env) && mem[a].id > cursor) <==>
      (a in list0 && IsNode(mem0[a], env) && mem0[a].id > cursor)
    ensures a in list && IsNode(mem[a], env) && mem[a].id > cursor ==> mem[a] == mem0[a]
  {
    assert Own(mem, env, a) <==> Own(mem0, env, a) && !(a in list0 && mem0[a].id in DrainedIds(served, stops));
  }

  lemma NextServed(list: seq<Addr>, mem: Memory, env: Env, list0: seq<Addr>, mem0: Memory, cursor: nat,
                   served: seq<Wrapper>, stops: nat -> bool, id: nat)
    requires Resident(list, mem) && Resident(list0, mem0)
    requires Remaining(list, mem, env, list0, mem0, DrainedIds(served, stops))
    requires DrainedTo(env, list0, mem0, cursor, served)
    requires id == NextNode(list, mem, env, cursor)
    ensures forall w :: w in Nodes(list0, mem0, env, cursor) ==> id != 0 && id <= w.id
    ensures id != 0 ==> forall a :: a in list && IsNode(mem[a], env) && mem[a].id == id ==>
              mem[a] in Nodes(list0, mem0, env, cursor)
  {
    forall w | w in Nodes(list0, mem0, env, cursor) ensures id != 0 && id <= w.id {
      var a :| a in list0 && IsNode(mem0[a], env) && mem0[a].id > cursor && mem0[a] == w;
      StillThere(list, mem, env, list0, mem0, cursor, served, stops, a);
    }
    if id != 0 {
      forall a | a in list && IsNode(mem[a], env) && mem[a].id == id ensures mem[a] in Nodes(list0, mem0, env, cursor) {
        StillThere(list, mem, env, list0, mem0, cursor, served, stops, a);
      }
    }
  }

  /** Serving the least node above the cursor. */
  lemma ServedMore(env: Env, list0: seq<Addr>, mem0: Memory, cursor: nat, served: seq<Wrapper>, w: Wrapper)
    requires Resident(list0, mem0) && Descending(list0, mem0)
    requires DrainedTo(env, list0, mem0, cursor, served)
    requires w in Nodes(list0, mem0, env, cursor)
    requires forall v :: v in Nodes(list0, mem0, env, cursor) ==> w.id <= v.id
    ensures DrainedTo(env, list0, mem0, w.id, served + [w])
    ensures |Nodes(list0, mem0, env, w.id)| < |Nodes(list0, mem0, env, cursor)|
  {
    forall v | v in Nodes(list0, mem0, env, 0) && v.id <= w.id ensures v in served + [w] {
      if v.id > cursor {
        assert v in Nodes(list0, mem0, env, cursor);
        var a :| a in list0 && mem0[a] == v;
        var b :| b in list0 && mem0[b] == w;
        SameIdentity(list0, mem0, a, b);
      }
    }
    assert w in Nodes(list0, mem0, env, cursor) && w !in Nodes(list0, mem0, env, w.id);
    assert Nodes(list0, mem0, env, cursor) ==
      Nodes(list0, mem0, env, w.id) + (Nodes(list0, mem0, env, cursor) - Nodes(list0, mem0, env, w.id));
  }

  lemma CallsMore(served: seq<Wrapper>, stops: nat -> bool, w: Wrapper)
    ensures StopCalls(served + [w], stops) == StopCalls(served, stops) + StopEvents(w, stops(w.id), true)
    ensures DrainedIds(served + [w], stops) == DrainedIds(served, stops) + (if Drained(w, stops) then {w.id} else {})
  {
    assert (served + [w])[..|served|] == served;
  }

  lemma RoundDone(env: Env, list: seq<Addr>, mem: Memory, list1: seq<Addr>, mem1: Memory, list0: seq<Addr>,
                  mem0: Memory,
                  cursor: nat, served: seq<Wrapper>, stops: nat -> bool, w: Wrapper)
    requires Resident(list0, mem0) && Descending(list0, mem0)
    requires DrainedTo(env, list0, mem0, cursor, served)
    requires w in Nodes(list0, mem0, env, cursor)
    requires forall v :: v in Nodes(list0, mem0, env, cursor) ==> w.id <= v.id
    requires Remaining(list1, mem1, env, list0, mem0, DrainedIds(served, stops))
    requires Remaining(list, mem, env, list1, mem1, if Drained(w, stops) then {w.id} else {})
    ensures DrainedTo(env, list0, mem0, w.id, served + [w])
    ensures |Nodes(list0, mem0, env, w.id)| < |Nodes(list0, mem0, env, cursor)|
    ensures Remaining(list, mem, env, list0, mem0, DrainedIds(served + [w], stops))
    ensures StopCalls(served + [w], stops) == StopCalls(served, stops) + StopEvents(w, stops(w.id), true)
  {
    ServedMore(env, list0, mem0, cursor, served, w);
    CallsMore(served, stops, w);
    RemainingBoth(list, mem, env, list1, mem1, if Drained(w, stops) then {w.id} else {}, list0, mem0,
                  DrainedIds(served, stops));
  }

  /** Clearing the signer's flag changes neither the nodes nor the other environments' entries. */
  lemma UnhookedNodes(list: seq<Addr>, mem: Memory, env: Env, a: Addr)
    requires Resident(list, mem) && a in list && mem[a].env == env && mem[a].kind == Signer
    ensures var m := mem[a := mem[a].(hooked := false)];
      && Nodes(list, m, env, 0) == Nodes(list, mem, env, 0) && Foreigners(list, m, env) == Foreigners(list, mem, env)
      && Strangers(m, env) == Strangers(mem, env)
  {
    var m := mem[a := mem[a].(hooked := false)];
    ForeignersUpdate(list, mem, env, m);
    forall w ensures w in Nodes(list, m, env, 0) <==> w in Nodes(list, mem, env, 0) {
      if w in Nodes(list, m, env, 0) { var b :| b in list && IsNode(m[b], env) && m[b].id > 0 && m[b] == w; }
      if w in Nodes(list, mem, env, 0) {
        var b :| b in list && IsNode(mem[b], env) && mem[b].id > 0 && mem[b] == w; assert m[b] == w;
      }
    }
  }

  /** The drain releases nodes only: identities are distinct, so the signer's is not among theirs. */
  lemma SignerSurvives(env: Env, list0: seq<Addr>, mem0: Memory, list: seq<Addr>, mem: Memory,
                       served: seq<Wrapper>, stops: nat -> bool, a: Addr)
    requires Resident(list0, mem0) && Descending(list0, mem0) && a in list0 && mem0[a].env == env
    requires mem0[a].kind == Signer
    requires forall w :: w in served ==> w in Nodes(list0, mem0, env, 0)
    requires Remaining(list, mem, env, list0, mem0, DrainedIds(served, stops))
    ensures a in list && a in mem && mem[a] == mem0[a] && mem0[a].id !in DrainedIds(served, stops)
  {
    forall w | w in served ensures w.id != mem0[a].id {
      var b :| b in list0 && IsNode(mem0[b], env) && mem0[b] == w;
      if w.id == mem0[a].id { SameIdentity(list0, mem0, a, b); }
    }
    assert Own(mem, env, a);
  }

  lemma StrangersOwnGone(mem: Memory, env: Env, a: Addr)
    requires Own(mem, env, a)
    ensures Strangers(mem - {a}, env) == Strangers(mem, env)
  {
  }

  lemma SignerGone(env: Env, a: Addr, list0: seq<Addr>, mem0: Memory, list: seq<Addr>, mem: Memory, gone: set<nat>)
    requires Resident(list0, mem0) && Descending(list0, mem0) && a in list0 && Own(mem0, env, a)
    requires Remaining(list, mem, env, list0, mem0, gone)
    requires forall b :: b in Remove(list, a) <==> b in list && b != a
    ensures Remaining(Remove(list, a), mem - {a}, env, list0, mem0, gone + {mem0[a].id})
  {
    var m := mem - {a};
    forall b ensures Own(m, env, b) <==> Own(mem0, env, b) && !(b in list0 && mem0[b].id in gone + {mem0[a].id}) {
      if b in list0 && mem0[b].id == mem0[a].id { SameIdentity(list0, mem0, a, b); }
      assert Own(mem, env, b) <==> Own(mem0, env, b) && !(b in list0 && mem0[b].id in gone);
    }
  }

  /** Storing flags into an own wrapper changes no identity and no other environment's entry. */
  lemma StoredNode(list: seq<Addr>, mem: Memory, env: Env, a: Addr, w: Wrapper)
    requires Resident(list, mem) && Descending(list, mem) && Own(mem, env, a) && HookOf(w) == HookOf(mem[a])
    ensures var m := mem[a := w];
      Resident(list, m) && Descending(list, m) && Foreigners(list, m, env) == Foreigners(list, mem, env)
  {
    ForeignersUpdate(list, mem, env, mem[a := w]);
  }

  lemma LeaveOwn(list: seq<Addr>, mem: Memory, env: Env, a: Addr)
    requires Resident(list, mem) && Descending(list, mem) && a in list && mem[a].env == env
    ensures Resident(Remove(list, a), mem) && (forall b :: b in Remove(list, a) <==> b in list && b != a)
    ensures Foreigners(Remove(list, a), mem, env) == Foreigners(list, mem, env)
  {
    RemoveExactly(list, mem, a);
    forall i, j | 0 <= i < j < |list| ensures list[i] != list[j] { Distinct(list, mem, i, j); }
    ForeignersRemove(list, mem, env, a);
  }

  lemma StoredRemaining(list: seq<Addr>, mem: Memory, env: Env, list0: seq<Addr>, mem0: Memory, a: Addr, w: Wrapper)
    requires Remaining(list, mem, env, list0, mem0, {}) && Own(mem, env, a) && w.env == env
    ensures Remaining(list, mem[a := w], env, list0, mem0[a := w], {})
  {
    var m, m0 := mem[a := w], mem0[a := w];
    forall b ensures Own(m, env, b) <==> Own(m0, env, b) {
      assert Own(mem, env, b) <==> Own(mem0, env, b);
    }
  }

  /** The node's wrapper is unlinked, others come and go, and then it is released. */
  lemma NodeGone(env: Env, a: Addr, list0: seq<Addr>, mem0: Memory, list1: seq<Addr>, mem1: Memory)
    requires Resident(list0, mem0) && Descending(list0, mem0) && a in list0 && Own(mem0, env, a)
    requires Remaining(list1, mem1, env, Remove(list0, a), mem0, {})
    requires forall b :: b in Remove(list0, a) <==> b in list0 && b != a
    ensures Remaining(list1, mem1 - {a}, env, list0, mem0, {mem0[a].id})
  {
    forall b ensures Own(mem1 - {a}, env, b) <==> Own(mem0, env, b) && !(b in list0 && mem0[b].id in {mem0[a].id}) {
      if b in list0 && mem0[b].id == mem0[a].id { SameIdentity(list0, mem0, a, b); }
      assert Own(mem1, env, b) <==> Own(mem0, env, b);
    }
  }

  /** What became of the flags of a wrapper that is gone does not matter. */
  lemma RemainingUpdated(list: seq<Addr>, mem: Memory, env: Env, list0: seq<Addr>, mem0: Memory, a: Addr, w: Wrapper)
    requires a in list0 && Own(mem0, env, a) && HookOf(w) == HookOf(mem0[a])
    requires Remaining(list, mem, env, list0, mem0[a := w], {} + {w.id})
    ensures Remaining(list, mem, env, list0, mem0, {w.id})
  {
    var m := mem0[a := w];
    forall b ensures Own(mem, env, b) <==> Own(mem0, env, b) && !(b in list0 && mem0[b].id in {w.id}) {
      assert Own(mem, env, b) <==> Own(m, env, b) && !(b in list0 && m[b].id in {} + {w.id});
    }
  }

  lemma EnterElsewhere(list: seq<Addr>, mem: Memory, env: Env, at: Addr, w: Wrapper)
    requires Resident(list, mem) && at !in mem && w.env != env
    ensures Remaining([at] + list, mem[at := w], env, list, mem, {})
    ensures Foreigners([at] + list, mem[at := w], env) == Replay(Foreigners(list, mem, env), [Entered(Entry(at, w))])
  {
    ForeignersUpdate(list, mem, env, mem[at := w]);
    ForeignersPush(list, mem[at := w], env, at);
    ReplayOne(Foreigners(list, mem, env), Entered(Entry(at, w)));
  }

  lemma LeaveElsewhere(list: seq<Addr>, mem: Memory, env: Env, at: Addr)
    requires Resident(list, mem) && Descending(list, mem) && at in mem && mem[at].env != env
    ensures var l, m := Remove(list, at), mem - {at};
      && Resident(l, m) && Descending(l, m) && (forall b :: b in l ==> b in list)
      && Remaining(l, m, env, list, mem, {})
      && Foreigners(l, m, env) == Replay(Foreigners(list, mem, env), [Left(at)])
  {
    RemoveExactly(list, mem, at);
    LeaveForeigners(list, mem, env, at);
  }

  lemma LeaveForeigners(list: seq<Addr>, mem: Memory, env: Env, at: Addr)
    requires Resident(list, mem) && Descending(list, mem) && at in mem && mem[at].env != env
    requires Resident(Remove(list, at), mem - {at})
    ensures Foreigners(Remove(list, at), mem - {at}, env) == Replay(Foreigners(list, mem, env), [Left(at)])
  {
    forall i, j | 0 <= i < j < |list| ensures list[i] != list[j] { Distinct(list, mem, i, j); }
    ForeignersRemove(list, mem, env, at);
    ForeignersUpdate(Remove(list, at), mem, env, mem - {at});
    ReplayOne(Foreigners(list, mem, env), Left(at));
  }

  lemma RemainingBoth(list2: seq<Addr>, mem2: Memory, env: Env, list1: seq<Addr>, mem1: Memory, gone: set<nat>,
                      list0: seq<Addr>, mem0: Memory, gone0: set<nat>)
    requires Remaining(list1, mem1, env, list0, mem0, gone0) && Remaining(list2, mem2, env, list1, mem1, gone)
    ensures Remaining(list2, mem2, env, list0, mem0, gone0 + gone)
    ensures gone == {} ==> Remaining(list2, mem2, env, list0, mem0, gone0)
  {
    assert gone == {} ==> gone0 + gone == gone0;
    forall a ensures Own(mem2, env, a) <==> Own(mem0, env, a) && !(a in list0 && mem0[a].id in gone0 + gone) {
      assert Own(mem2, env, a) <==> Own(mem1, env, a) && !(a in list1 && mem1[a].id in gone);
      assert Own(mem1, env, a) <==> Own(mem0, env, a) && !(a in list0 && mem0[a].id in gone0);
    }
  }

  lemma {:induction false} ReplayBoth(entries: seq<Entry>, first: seq<Effect>, second: seq<Effect>)
    ensures Replay(entries, first + second) == Replay(Replay(entries, first), second)
    decreases |second|
  {
    if second == [] {
      assert first + second == first;
    } else {
      var n := |second| - 1;
      assert first + second == (first + second[..n]) + [second[n]];
      assert second == second[..n] + [second[n]];
      ReplayMore(entries, first + second[..n], second[n]);
      ReplayMore(Replay(entries, first), second[..n], second[n]);
      ReplayBoth(entries, first, second[..n]);
    }
  }

  ghost function Named(effect: Effect): Addr {
    match effect
    case Entered(entry) => entry.addr
    case Left(a) => a
  }

  lemma {:induction false} WithoutKeeps(entries: seq<Entry>, a: Addr, x: Entry)
    requires x.addr != a
    ensures x in Without(entries, a) <==> x in entries
  {
    if entries != [] {
      assert entries == [entries[0]] + entries[1..];
      WithoutKeeps(entries[1..], a, x);
    }
  }

  lemma {:induction false} ReplaySpares(entries: seq<Entry>, mem: Memory, effects: seq<Effect>, x: Entry)
    requires forall e :: e in effects ==> Named(e) != x.addr
    ensures x in Replay(entries, effects) <==> x in entries
    ensures x.addr in ReplayMemory(mem, effects) <==> x.addr in mem
    ensures x.addr in mem ==> ReplayMemory(mem, effects)[x.addr] == mem[x.addr]
    decreases |effects|
  {
    if effects != [] {
      var k := |effects| - 1;
      assert Named(effects[k]) != x.addr;
      ReplaySpares(entries, mem, effects[..k], x);
      match effects[k] {
        case Entered(_) =>
        case Left(a) => WithoutKeeps(Replay(entries, effects[..k]), a, x);
      }
    }
  }

  /** An entry and a wrapper at an address that no action of the others names are as they were. */
  lemma UnnamedSpared(entries: seq<Entry>, mem: Memory, effects: seq<Effect>, log: seq<Foreign>, env: Env, x: Entry)
    requires ComeFrom(effects, log, env) && forall f :: f in log ==> f.at != x.addr
    ensures x in Replay(entries, effects) <==> x in entries
    ensures x.addr in ReplayMemory(mem, effects) <==> x.addr in mem
    ensures x.addr in mem ==> ReplayMemory(mem, effects)[x.addr] == mem[x.addr]
  {
    var at: seq<nat> :| Places(at, effects, log, env);
    forall e | e in effects ensures Named(e) != x.addr {
      var i :| 0 <= i < |effects| && effects[i] == e;
      assert log[at[i]] in log && Does(log[at[i]], e, env);
    }
    ReplaySpares(entries, mem, effects, x);
  }

  lemma {:induction false} ForeignersUpdate(list: seq<Addr>, mem: Memory, env: Env, mem': Memory)
    requires Resident(list, mem) && Resident(list, mem')
    requires forall a ::
      a in list ==> (mem[a].env == env <==> mem'[a].env == env) && (mem[a].env != env ==> mem'[a] == mem[a])
    ensures Foreigners(list, mem', env) == Foreigners(list, mem, env)
  {
    if list != [] {
      assert list == [list[0]] + list[1..];
      ForeignersUpdate(list[1..], mem, env, mem');
    }
  }

  lemma {:induction false} ForeignersMember(list: seq<Addr>, mem: Memory, env: Env, a: Addr)
    requires Resident(list, mem) && a !in list
    ensures forall x :: x in Foreigners(list, mem, env) ==> x.addr != a
  {
    if list != [] {
      assert list == [list[0]] + list[1..];
      ForeignersMember(list[1..], mem, env, a);
    }
  }

  lemma {:induction false} WithoutAbsent(entries: seq<Entry>, a: Addr)
    requires forall x :: x in entries ==> x.addr != a
    ensures Without(entries, a) == entries
  {
    if entries != [] {
      assert entries == [entries[0]] + entries[1..];
      WithoutAbsent(entries[1..], a);
    }
  }

  lemma ForeignersPush(list: seq<Addr>, mem: Memory, env: Env, a: Addr)
    requires Resident(list, mem) && a in mem && mem[a].env != env
    ensures Foreigners([a] + list, mem, env) == [Entry(a, mem[a])] + Foreigners(list, mem, env)
  {
    assert ([a] + list)[1..] == list;
  }

  /** Unlinking an entry takes it out of the others' entries, and out of nothing else when it is the environment's
      own. */
  lemma {:induction false} ForeignersRemove(list: seq<Addr>, mem: Memory, env: Env, a: Addr)
    requires Resident(list, mem) && (forall i, j :: 0 <= i < j < |list| ==> list[i] != list[j])
    ensures Resident(Remove(list, a), mem)
    ensures Foreigners(Remove(list, a), mem, env) ==
            (if a in list && mem[a].env == env then Foreigners(list, mem, env)
             else Without(Foreigners(list, mem, env), a))
  {
    if list == [] {
    } else {
      assert list == [list[0]] + list[1..];
      var rest := Foreigners(list[1..], mem, env);
      ForeignersRemove(list[1..], mem, env, a);
      assert ([Entry(list[0], mem[list[0]])] + rest)[1..] == rest;
      assert [] + rest == rest;
      if list[0] != a {
        assert ([list[0]] + Remove(list[1..], a))[1..] == Remove(list[1..], a);
      } else {
        ForeignersMember(list[1..], mem, env, a);
      }
    }
  }

  lemma NextNodeStep(list: seq<Addr>, mem: Memory, env: Env, cursor: nat, i: nat, id: nat)
    requires Resident(list, mem) && i < |list| && (id == 0 || id > cursor)
    ensures var w := mem[list[i]];
      var id' := if IsNode(w, env) && w.id > cursor && (id == 0 || w.id < id) then w.id else id;
      Least(id, NextNode(list[i..], mem, env, cursor)) == Least(id', NextNode(list[i + 1..], mem, env, cursor))
  {
    assert list[i..][1..] == list[i + 1..];
  }

  function Least(a: nat, b: nat): nat {
    if a == 0 then b else if b == 0 || a < b then a else b
  }

  lemma PushLinked(list: seq<Addr>, next: map<Addr, Addr>, head: Addr, entry: Addr)
    requires Linked(list, next, head) && entry !in list && entry != NULL
    ensures Linked([entry] + list, next[entry := head], entry)
  {
    var l := [entry] + list;
    forall i | 0 <= i < |l| ensures At(l, i) in next[entry := head] && next[entry := head][At(l, i)] == At(l, i + 1) {
      assert At(l, i + 1) == At(list, i);
      if i > 0 { assert At(l, i) == At(list, i - 1); }
    }
  }

  /** Pointing the predecessor of entry `k` at its successor leaves the list without that entry. */
  lemma SpliceLinked(list: seq<Addr>, mem: Memory, next: map<Addr, Addr>, head: Addr, entry: Addr, k: nat)
    requires Resident(list, mem) && Descending(list, mem)
    requires Linked(list, next, head) && k < |list| && list[k] == entry && entry !in list[..k]
    ensures entry in next
    ensures k == 0 ==> Linked(Remove(list, entry), next, next[entry])
    ensures k > 0 ==> Linked(Remove(list, entry), next[list[k - 1] := next[entry]], head)
  {
    RemoveAt(list, entry, k);
    var r := Remove(list, entry);
    assert At(list, k) == entry && next[entry] == At(list, k + 1);
    forall i | 0 <= i <= |r| ensures At(r, i) == At(list, if i < k then i else i + 1) {
    }
    if k > 0 { SpliceMiddle(list, mem, next, head, entry, k, r); }
  }

  lemma SpliceMiddle(list: seq<Addr>, mem: Memory, next: map<Addr, Addr>, head: Addr, entry: Addr, k: nat, r: seq<Addr>)
    requires Resident(list, mem) && Descending(list, mem)
    requires Linked(list, next, head) && 0 < k < |list| && entry in next && next[entry] == At(list, k + 1)
    requires |r| == |list| - 1 && forall i :: 0 <= i <= |r| ==> At(r, i) == At(list, if i < k then i else i + 1)
    ensures Linked(r, next[list[k - 1] := next[entry]], head)
  {
    var n := next[list[k - 1] := next[entry]];
    assert At(r, 0) == At(list, 0);
    forall i | 0 <= i < |r| ensures At(r, i) in n && n[At(r, i)] == At(r, i + 1) && r[i] != NULL {
      var j := if i < k then i else i + 1;
      assert At(r, i) == At(list, j) == list[j];
      assert At(r, i + 1) == At(list, if i + 1 < k then i + 1 else i + 2);
      if j != k - 1 { Distinct(list, mem, j, k - 1); }
    }
  }

  lemma Distinct(list: seq<Addr>, mem: Memory, i: nat, j: nat)
    requires Resident(list, mem) && Descending(list, mem) && i < |list| && j < |list| && i != j
    ensures list[i] != list[j]
  {
    if i < j { assert mem[list[i]].id > mem[list[j]].id; } else { assert mem[list[j]].id > mem[list[i]].id; }
  }
}
