/** The process-wide registry of native handles (binding.cc).

    A wrapper is a malloc'ed SdkNodeRef or SignerRef.  It starts with a HandleEntry, through which it is
    linked into one list shared by every JavaScript environment.  Memory is explicit: `Memory` maps the
    addresses that are currently allocated to the wrapper stored there, so that an address can be freed and
    handed out again, and so that reading a freed wrapper is something a proof has to rule out. */
module Handles {
  import opened Common

  type Addr = nat
  const NULL: Addr := 0
  type Env = nat
  type Obj = nat

  datatype Kind = Node | Signer

  // `attempted` is shutdown_attempted and `hooked` is teardown_registered in the source; a SignerRef has no
  // shutdown_attempted and leaves it false.  `obj` names the native object held in `opaque`.
  datatype Wrapper = Wrapper(env: Env, kind: Kind, id: nat, obj: Obj, freed: bool, attempted: bool, hooked: bool)

  type Memory = map<Addr, Wrapper>

  // ---------- What the locked sections compute, over the list as a sequence ----------

  ghost predicate Resident(list: seq<Addr>, mem: Memory) {
    forall a :: a in list ==> a in mem
  }

  ghost predicate Descending(list: seq<Addr>, mem: Memory)
    requires Resident(list, mem)
  {
    forall i, j :: 0 <= i < j < |list| ==> mem[list[i]].id > mem[list[j]].id
  }

  predicate IsNode(w: Wrapper, env: Env) {
    w.env == env && w.kind == Node
  }

  /** The counter after issuing `id`: uintptr_t arithmetic, so the last identity wraps to 0. */
  function Successor(id: nat, word: nat): nat
    requires word > 0
  {
    (id + 1) % word
  }

  ghost predicate Owns(list: seq<Addr>, mem: Memory, env: Env, data: Addr, kind: Kind)
    requires Resident(list, mem)
  {
    data in list && mem[data].env == env && mem[data].kind == kind
  }

  ghost function FindFinalizer(list: seq<Addr>, mem: Memory, env: Env, data: Addr, hint: nat, kind: Kind): Option<Addr>
    requires Resident(list, mem)
  {
    if Owns(list, mem, env, data, kind) && mem[data].id == hint then Some(data) else None
  }

  /** The first entry, from the head of the list, with this identity and kind. */
  ghost function FindTeardown(list: seq<Addr>, mem: Memory, id: nat, kind: Kind): (r: Option<Addr>)
    requires Resident(list, mem)
    ensures r.Some? ==> r.value in list && mem[r.value].id == id && mem[r.value].kind == kind
    ensures r.None? ==> forall a :: a in list ==> mem[a].id != id || mem[a].kind != kind
  {
    if list == [] then None
    else if mem[list[0]].id == id && mem[list[0]].kind == kind then Some(list[0])
    else assert list == [list[0]] + list[1..]; FindTeardown(list[1..], mem, id, kind)
  }

  /** The least identity above `cursor` among the nodes of `env`, or 0 when there is none. */
  ghost function NextNode(list: seq<Addr>, mem: Memory, env: Env, cursor: nat): (id: nat)
    requires Resident(list, mem)
    ensures id == 0 ==> forall a :: a in list && IsNode(mem[a], env) ==> mem[a].id <= cursor
    ensures id != 0 ==> id > cursor && exists a :: a in list && IsNode(mem[a], env) && mem[a].id == id
    ensures id != 0 ==> forall a :: a in list && IsNode(mem[a], env) && mem[a].id > cursor ==> id <= mem[a].id
  {
    if list == [] then 0
    else
      assert list == [list[0]] + list[1..];
      var rest := NextNode(list[1..], mem, env, cursor);
      var w := mem[list[0]];
      if IsNode(w, env) && w.id > cursor && (rest == 0 || w.id < rest) then w.id else rest
  }

  /** The list without the first occurrence of `a`. */
  ghost function Remove(list: seq<Addr>, a: Addr): (r: seq<Addr>) {
    if list == [] then []
    else if list[0] == a then list[1..]
    else [list[0]] + Remove(list[1..], a)
  }

  lemma {:induction false} RemoveSplit(list: seq<Addr>, a: Addr, k: nat)
    requires k < |list| && list[k] == a && a !in list[..k]
    ensures Remove(list, a) == list[..k] + list[k + 1..]
  {
    if k > 0 {
      assert list[0] in list[..k];
      assert list[1..][..k - 1] == list[..k][1..];
      RemoveSplit(list[1..], a, k - 1);
      assert list[1..][k..] == list[k + 1..];
      assert list[..k] == [list[0]] + list[1..][..k - 1];
    }
  }

  lemma {:induction false} RemoveAbsent(list: seq<Addr>, a: Addr)
    requires a !in list
    ensures Remove(list, a) == list
  {
    if list != [] {
      RemoveAbsent(list[1..], a);
    }
  }

  lemma IndexOf(list: seq<Addr>, a: Addr) returns (k: nat)
    requires a in list
    ensures k < |list| && list[k] == a && a !in list[..k]
  {
    k := 0;
    while list[k] != a
      invariant k < |list| && a in list[k..] && a !in list[..k]
      decreases |list| - k
    {
      assert list[..k + 1] == list[..k] + [list[k]];
      k := k + 1;
    }
  }

  /** Without position k, position i of the result is position i or i + 1 of the list. */
  lemma RemoveAt(list: seq<Addr>, a: Addr, k: nat)
    requires k < |list| && list[k] == a && a !in list[..k]
    ensures |Remove(list, a)| == |list| - 1
    ensures forall i :: 0 <= i < |list| - 1 ==> Remove(list, a)[i] == list[if i < k then i else i + 1]
  {
    RemoveSplit(list, a, k);
  }

  lemma RemoveDescends(list: seq<Addr>, mem: Memory, a: Addr)
    requires Resident(list, mem) && Descending(list, mem)
    ensures Resident(Remove(list, a), mem) && Descending(Remove(list, a), mem)
  {
    if a in list {
      var k := IndexOf(list, a);
      RemoveAt(list, a, k);
    } else {
      RemoveAbsent(list, a);
    }
  }

  lemma RemoveKeeps(list: seq<Addr>, a: Addr, b: Addr)
    ensures b in list && b != a ==> b in Remove(list, a)
    ensures b in Remove(list, a) ==> b in list
  {
    if list != [] && list[0] != a {
      RemoveKeeps(list[1..], a, b);
      assert list == [list[0]] + list[1..];
    } else if list != [] {
      assert list == [list[0]] + list[1..];
    }
  }

  lemma RemoveDrops(list: seq<Addr>, mem: Memory, a: Addr)
    requires Resident(list, mem) && Descending(list, mem)
    ensures a !in Remove(list, a)
  {
    if a in list {
      var k := IndexOf(list, a);
      RemoveAt(list, a, k);
      forall i | 0 <= i < |list| - 1 ensures Remove(list, a)[i] != a {
        var j := if i < k then i else i + 1;
        if j > k { assert mem[list[k]].id > mem[list[j]].id; }
      }
    } else {
      RemoveAbsent(list, a);
    }
  }

  /** Unlinking takes out exactly the entry and leaves the others in their order. */
  lemma RemoveExactly(list: seq<Addr>, mem: Memory, a: Addr)
    requires Resident(list, mem) && Descending(list, mem)
    ensures var r := Remove(list, a);
      && Resident(r, mem) && Descending(r, mem)
      && (forall b :: b in r <==> b in list && b != a)
  {
    RemoveDescends(list, mem, a);
    RemoveDrops(list, mem, a);
    forall b ensures b in Remove(list, a) <==> b in list && b != a {
      RemoveKeeps(list, a, b);
    }
  }

  /** Identities never repeat along the list, so the first match is the only one. */
  lemma SameIdentity(list: seq<Addr>, mem: Memory, a: Addr, b: Addr)
    requires Resident(list, mem) && Descending(list, mem)
    requires a in list && b in list && mem[a].id == mem[b].id
    ensures a == b
  {
    var i :| 0 <= i < |list| && list[i] == a;
    var j :| 0 <= j < |list| && list[j] == b;
    if i < j {
      assert mem[list[i]].id > mem[list[j]].id;
    } else if j < i {
      assert mem[list[j]].id > mem[list[i]].id;
    }
  }
}
