/** What the drain leaves when other environments act between its locked sections. */
module DrainInterference {
  import opened Handles
  import opened Lifecycle
  import opened HandleOutcomes

  lemma SuccessorIs(id: nat, word: nat)
    requires id < word
    ensures Successor(id, word) == if id + 1 == word then 0 else id + 1
  {
  }

  lemma PushDescends(list: seq<Addr>, mem: Memory, entry: Addr, w: Wrapper)
    requires Resident(list, mem) && Descending(list, mem) && entry !in list
    requires forall a :: a in list ==> mem[a].id < w.id
    ensures var m := mem[entry := w]; Resident([entry] + list, m) && Descending([entry] + list, m)
  {
    var l := [entry] + list;
    assert forall i :: 0 < i < |l| ==> l[i] == list[i - 1];
  }

  /** One action of another environment, which may turn out impossible. */
  ghost function Interfered(n: Native, env: Env, word: nat, f: Foreign): Native
    requires word > 0
  {
    match f
    case Enter(at, other, kind, obj) =>
      if other == env || at == NULL || at in n.mem || n.nextId == 0 then n
      else
        n.(mem := n.mem[at := Wrapper(other, kind, n.nextId, obj, false, false, false)], list := [at] + n.list,
           nextId := Successor(n.nextId, word))
    case Leave(at) =>
      if at !in n.mem || n.mem[at].env == env then n else n.(mem := n.mem - {at}, list := Remove(n.list, at))
  }

  ghost function EffectOf(n: Native, env: Env, f: Foreign): seq<Effect> {
    match f
    case Enter(at, other, kind, obj) =>
      if other == env || at == NULL || at in n.mem || n.nextId == 0 then []
      else [Entered(Entry(at, Wrapper(other, kind, n.nextId, obj, false, false, false)))]
    case Leave(at) => if at !in n.mem || n.mem[at].env == env then [] else [Left(at)]
  }

  ghost function AllInterfered(n: Native, env: Env, word: nat, fs: seq<Foreign>): Native
    requires word > 0
    decreases |fs|
  {
    if fs == [] then n else Interfered(AllInterfered(n, env, word, fs[..|fs| - 1]), env, word, fs[|fs| - 1])
  }

  ghost function AllEffects(n: Native, env: Env, word: nat, fs: seq<Foreign>): seq<Effect>
    requires word > 0
    decreases |fs|
  {
    if fs == [] then []
    else
      AllEffects(n, env, word, fs[..|fs| - 1])
      + EffectOf(AllInterfered(n, env, word, fs[..|fs| - 1]), env, fs[|fs| - 1])
  }

  lemma OneMoreAction(n: Native, env: Env, word: nat, fs: seq<Foreign>, i: nat)
    requires word > 0 && i < |fs|
    ensures var u := AllInterfered(n, env, word, fs[..i]);
      && AllInterfered(n, env, word, fs[..i + 1]) == Interfered(u, env, word, fs[i])
      && AllEffects(n, env, word, fs[..i + 1]) == AllEffects(n, env, word, fs[..i]) + EffectOf(u, env, fs[i])
  {
    assert fs[..i + 1][..i] == fs[..i];
  }

  /** A list in order, with identities that were given out. */
  ghost predicate Orderly(n: Native, word: nat) {
    && Sound(n) && 1 < word && n.nextId < word && NULL !in n.mem
    && forall a :: a in n.list ==> 0 < n.mem[a].id < word && (n.nextId != 0 ==> n.mem[a].id < n.nextId)
  }

  lemma EnteredOrderly(n: Native, word: nat, at: Addr, w: Wrapper)
    requires Orderly(n, word) && at != NULL && at !in n.mem && w.id == n.nextId != 0
    ensures Orderly(n.(mem := n.mem[at := w], list := [at] + n.list, nextId := Successor(n.nextId, word)), word)
  {
    SuccessorIs(n.nextId, word);
    PushDescends(n.list, n.mem, at, w);
  }

  ghost function Unlisted(n: Native, a: Addr): Native {
    n.(list := Remove(n.list, a))
  }

  ghost function Dropped(n: Native, a: Addr): Native {
    n.(mem := n.mem - {a})
  }

  lemma UnlistedOrderly(n: Native, word: nat, a: Addr)
    requires Orderly(n, word)
    ensures Orderly(Unlisted(n, a), word) && forall b :: b in Unlisted(n, a).list <==> b in n.list && b != a
  {
    RemoveExactly(n.list, n.mem, a);
  }

  lemma DroppedOrderly(n: Native, word: nat, a: Addr)
    requires Orderly(n, word) && a !in n.list
    ensures Orderly(Dropped(n, a), word)
  {
  }

  lemma LeftOrderly(n: Native, word: nat, at: Addr)
    requires Orderly(n, word)
    ensures Orderly(Dropped(Unlisted(n, at), at), word)
    ensures forall a :: a in Unlisted(n, at).list <==> a in n.list && a != at
  {
    UnlistedOrderly(n, word, at);
    DroppedOrderly(Unlisted(n, at), word, at);
  }

  lemma InterferedOrderly(n: Native, env: Env, word: nat, f: Foreign)
    requires Orderly(n, word)
    ensures Orderly(Interfered(n, env, word, f), word)
    ensures forall a :: Own(n.mem, env, a) ==> Own(Interfered(n, env, word, f).mem, env, a)
    ensures forall a :: Own(Interfered(n, env, word, f).mem, env, a) ==>
      Own(n.mem, env, a) && Interfered(n, env, word, f).mem[a] == n.mem[a]
      && (a in Interfered(n, env, word, f).list <==> a in n.list)
  {
    var u := Interfered(n, env, word, f);
    if u != n {
      match f {
        case Enter(at, _, _, _) => EnteredOrderly(n, word, at, u.mem[at]);
        case Leave(at) => LeftOrderly(n, word, at);
      }
    }
  }

  lemma {:induction false} AllInterferedOrderly(n: Native, env: Env, word: nat, fs: seq<Foreign>)
    requires Orderly(n, word)
    ensures var u := AllInterfered(n, env, word, fs);
      && Orderly(u, word)
      && (forall a :: Own(u.mem, env, a) <==> Own(n.mem, env, a))
      && (forall a :: Own(u.mem, env, a) ==> u.mem[a] == n.mem[a] && (a in u.list <==> a in n.list))
    decreases |fs|
  {
    if fs != [] {
      var k := |fs| - 1;
      AllInterferedOrderly(n, env, word, fs[..k]);
      InterferedOrderly(AllInterfered(n, env, word, fs[..k]), env, word, fs[k]);
    }
  }

  lemma SameNodesAfter(n: Native, env: Env, word: nat, fs: seq<Foreign>, cursor: nat)
    requires Orderly(n, word)
    ensures NodesAfter(AllInterfered(n, env, word, fs), env, cursor) == NodesAfter(n, env, cursor)
  {
    var u := AllInterfered(n, env, word, fs);
    AllInterferedOrderly(n, env, word, fs);
    forall a ensures a in NodesAfter(u, env, cursor) <==> a in NodesAfter(n, env, cursor) {
      assert Own(u.mem, env, a) <==> Own(n.mem, env, a);
    }
  }

  /** A node stopped. */
  ghost function StoppedNode(n: Native, a: Addr, ok: bool): Native
    requires a in n.mem
  {
    Kept(n, a, StoppedAndFreed(n.mem[a], ok), StopEvents(n.mem[a], ok, true))
  }

  datatype Service = Service(n: Native, log: seq<Foreign>, effects: seq<Effect>)

  /** The service of a node that was found: others act before it is looked up again, before the next locked section, and
      before its wrapper is freed. */
  ghost function ServedAmid(n: Native, env: Env, word: nat, a: Addr, ok: bool, before: seq<Foreign>,
                            during: seq<Foreign>, after: seq<Foreign>): Service
    requires Orderly(n, word) && Own(n.mem, env, a)
  {
    AllInterferedOrderly(n, env, word, before);
    var found := AllInterfered(n, env, word, before);
    var stopped := StoppedNode(found, a, ok);
    var u := AllInterfered(stopped, env, word, during);
    var effects := AllEffects(n, env, word, before) + AllEffects(stopped, env, word, during);
    if !StoppedAndFreed(n.mem[a], ok).freed then Service(u, before + during, effects)
    else
      var unlisted := Unlisted(u, a);
      Service(Dropped(AllInterfered(unlisted, env, word, after), a), before + during + after,
              effects + AllEffects(unlisted, env, word, after))
  }

  lemma StoppedOrderly(n: Native, word: nat, a: Addr, ok: bool)
    requires Orderly(n, word) && a in n.mem
    ensures Orderly(StoppedNode(n, a, ok), word)
  {
  }

  /** Afterwards the node is behind the cursor, and the other nodes are where they were. */
  lemma ServedAmidSmaller(n: Native, env: Env, word: nat, a: Addr, ok: bool, before: seq<Foreign>, during: seq<Foreign>,
                          after: seq<Foreign>, cursor: nat)
    requires Orderly(n, word) && a in n.list && IsNode(n.mem[a], env) && n.mem[a].id > cursor
    ensures var o := ServedAmid(n, env, word, a, ok, before, during, after);
      && Orderly(o.n, word)
      && |NodesAfter(o.n, env, n.mem[a].id)| < |NodesAfter(n, env, cursor)|
  {
    var id := n.mem[a].id;
    AllInterferedOrderly(n, env, word, before);
    var found := AllInterfered(n, env, word, before);
    assert Own(found.mem, env, a);
    SameNodesAfter(n, env, word, before, id);
    var stopped := StoppedNode(found, a, ok);
    StoppedOrderly(found, word, a, ok);
    StoppedNodesAfter(found, env, a, ok, id);
    AllInterferedOrderly(stopped, env, word, during);
    SameNodesAfter(stopped, env, word, during, id);
    var u := AllInterfered(stopped, env, word, during);
    assert Own(u.mem, env, a);
    if StoppedAndFreed(n.mem[a], ok).freed {
      ReleasedNodesAfter(u, env, word, a, after, id);
    }
    OneLess(n, env, a, cursor);
  }

  lemma StoppedNodesAfter(n: Native, env: Env, a: Addr, ok: bool, cursor: nat)
    requires a in n.mem
    ensures NodesAfter(StoppedNode(n, a, ok), env, cursor) == NodesAfter(n, env, cursor)
  {
  }

  lemma ReleasedNodesAfter(u: Native, env: Env, word: nat, a: Addr, after: seq<Foreign>, cursor: nat)
    requires Orderly(u, word) && Own(u.mem, env, a) && u.mem[a].id <= cursor
    ensures var v := Dropped(AllInterfered(Unlisted(u, a), env, word, after), a);
      Orderly(v, word) && NodesAfter(v, env, cursor) == NodesAfter(u, env, cursor)
  {
    var unlisted := Unlisted(u, a);
    UnlistedOrderly(u, word, a);
    assert NodesAfter(unlisted, env, cursor) == NodesAfter(u, env, cursor);
    AllInterferedOrderly(unlisted, env, word, after);
    SameNodesAfter(unlisted, env, word, after, cursor);
    var w := AllInterfered(unlisted, env, word, after);
    assert Own(w.mem, env, a) && a !in w.list;
    DroppedOrderly(w, word, a);
    assert NodesAfter(Dropped(w, a), env, cursor) == NodesAfter(w, env, cursor);
  }

  lemma OneLess(n: Native, env: Env, a: Addr, cursor: nat)
    requires a in n.list && a in n.mem && IsNode(n.mem[a], env) && n.mem[a].id > cursor
    ensures |NodesAfter(n, env, n.mem[a].id)| < |NodesAfter(n, env, cursor)|
  {
    var after, before := NodesAfter(n, env, n.mem[a].id), NodesAfter(n, env, cursor);
    assert before == before - {a} + {a};
    FewerMembers(after, before - {a});
  }

  /** Where a drain among others is: also what the others have done, and what they have achieved by it. */
  datatype Turn = Turn(n: Native, cursor: nat, all: bool, log: seq<Foreign>, effects: seq<Effect>)

  /** The lock is free before the scan. */
  ghost function Scan(p: Turn, env: Env, word: nat, fs: seq<Foreign>): (q: Turn)
    requires Orderly(p.n, word)
    ensures Orderly(q.n, word)
    ensures |NodesAfter(q.n, env, q.cursor)| == |NodesAfter(p.n, env, p.cursor)|
  {
    AllInterferedOrderly(p.n, env, word, fs);
    SameNodesAfter(p.n, env, word, fs, p.cursor);
    p.(n := AllInterfered(p.n, env, word, fs), log := p.log + fs, effects := p.effects + AllEffects(p.n, env, word, fs))
  }

  /** The node a scan has found. */
  ghost function NextAddr(q: Turn, env: Env): Addr
    requires Sound(q.n)
  {
    Address(FindTeardown(q.n.list, q.n.mem, NextNode(q.n.list, q.n.mem, env, q.cursor), Node))
  }

  lemma NextAddrIs(q: Turn, env: Env, a: Addr)
    requires Sound(q.n) && a in q.n.list && IsNode(q.n.mem[a], env)
    requires q.n.mem[a].id == NextNode(q.n.list, q.n.mem, env, q.cursor) != 0
    ensures NextAddr(q, env) == a
  {
    FoundNode(q.n.list, q.n.mem, q.n.mem[a].id, a, NextAddr(q, env));
  }

  /** The round for that node. */
  ghost function NextTurn(q: Turn, env: Env, word: nat, ok: bool, fs: Round): (r: Turn)
    requires Orderly(q.n, word) && NextNode(q.n.list, q.n.mem, env, q.cursor) != 0
    ensures Orderly(r.n, word) && Own(q.n.mem, env, NextAddr(q, env))
    ensures |NodesAfter(r.n, env, r.cursor)| < |NodesAfter(q.n, env, q.cursor)|
  {
    FoundNext(q.n, env, q.cursor);
    var a := NextAddr(q, env);
    var w := q.n.mem[a];
    var o := ServedAmid(q.n, env, word, a, ok, fs.find, fs.unlink, fs.free);
    ServedAmidSmaller(q.n, env, word, a, ok, fs.find, fs.unlink, fs.free, q.cursor);
    Turn(o.n, w.id, q.all && StoppedAndFreed(w, ok).freed, q.log + o.log, q.effects + o.effects)
  }

  /** What a drain comes to from before a scan, and from after it. */
  ghost function RestAmid(p: Turn, env: Env, word: nat, stops: nat -> bool, others: nat -> Round): Turn
    requires Orderly(p.n, word)
    decreases |NodesAfter(p.n, env, p.cursor)|, 1
  {
    RestScanned(Scan(p, env, word, others(p.cursor).scan), env, word, stops, others)
  }

  ghost function RestScanned(q: Turn, env: Env, word: nat, stops: nat -> bool, others: nat -> Round): Turn
    requires Orderly(q.n, word)
    decreases |NodesAfter(q.n, env, q.cursor)|, 0
  {
    var id := NextNode(q.n.list, q.n.mem, env, q.cursor);
    if id == 0 then q
    else
      RestAmid(NextTurn(q, env, word, stops(id), others(q.cursor)), env, word, stops, others)
  }

  /** shutdown_environment_nodes. */
  ghost function DrainAmid(n: Native, env: Env, word: nat, stops: nat -> bool, others: nat -> Round): Turn
    requires Orderly(n, word)
  {
    RestAmid(Turn(n, 0, true, [], []), env, word, stops, others)
  }

  /** signer_teardown once it found its entry and cleared its flag. */
  ghost function RevokedAmid(n: Native, word: nat, a: Addr, stops: nat -> bool, ok: bool, others: nat -> Round): Turn
    requires Orderly(n, word) && a in n.mem
  {
    var w := n.mem[a];
    var d := DrainAmid(n, w.env, word, stops, others);
    d.(n := SignerRevoked(Drainage(d.n, d.all), a, w, ok))
  }

  lemma UnflaggedOrderly(n: Native, word: nat, a: Addr)
    requires Orderly(n, word) && a in n.mem
    ensures Orderly(n.(mem := n.mem[a := n.mem[a].(hooked := false)]), word)
  {
  }

  /** signer_teardown. */
  ghost function SignerTornDownAmid(n: Native, word: nat, id: nat, stops: nat -> bool, ok: bool,
                                    others: nat -> Round): Turn
    requires Orderly(n, word)
  {
    var found := FindTeardown(n.list, n.mem, id, Signer);
    if found.None? then Turn(n, 0, true, [], [])
    else
      var a := found.value;
      UnflaggedOrderly(n, word, a);
      RevokedAmid(n.(mem := n.mem[a := n.mem[a].(hooked := false)]), word, a, stops, ok, others)
  }

  /** From `p`, before or after a scan, a drain comes to `d`. */
  ghost predicate Heads(p: Turn, env: Env, word: nat, stops: nat -> bool, others: nat -> Round, d: Turn) {
    Orderly(p.n, word) && RestAmid(p, env, word, stops, others) == d
  }

  ghost predicate HeadsOn(q: Turn, env: Env, word: nat, stops: nat -> bool, others: nat -> Round, d: Turn) {
    Orderly(q.n, word) && RestScanned(q, env, word, stops, others) == d
  }
}
