/** What the drain among others does to them, and what it does where they do nothing. */
module DrainLaws {
  import opened Handles
  import opened Lifecycle
  import opened HandleOutcomes
  import opened DrainInterference

  lemma HeadsScan(p: Turn, env: Env, word: nat, stops: nat -> bool, others: nat -> Round, d: Turn)
    requires Heads(p, env, word, stops, others, d)
    ensures HeadsOn(Scan(p, env, word, others(p.cursor).scan), env, word, stops, others, d)
  {
  }

  lemma HeadsServe(q: Turn, env: Env, word: nat, stops: nat -> bool, others: nat -> Round, d: Turn)
    requires HeadsOn(q, env, word, stops, others, d) && NextNode(q.n.list, q.n.mem, env, q.cursor) != 0
    ensures var id := NextNode(q.n.list, q.n.mem, env, q.cursor);
      Heads(NextTurn(q, env, word, stops(id), others(q.cursor)), env, word, stops, others, d)
  {
  }

  lemma NextTurnIs(q: Turn, env: Env, word: nat, a: Addr, ok: bool, fs: Round)
    requires Orderly(q.n, word) && a in q.n.list && IsNode(q.n.mem[a], env)
    requires q.n.mem[a].id == NextNode(q.n.list, q.n.mem, env, q.cursor) != 0
    ensures var o := ServedAmid(q.n, env, word, a, ok, fs.find, fs.unlink, fs.free);
      NextTurn(q, env, word, ok, fs) ==
      Turn(o.n, q.n.mem[a].id, q.all && StoppedAndFreed(q.n.mem[a], ok).freed, q.log + o.log, q.effects + o.effects)
  {
    NextAddrIs(q, env, a);
  }

  lemma HeadsEnd(q: Turn, env: Env, word: nat, stops: nat -> bool, others: nat -> Round, d: Turn)
    requires HeadsOn(q, env, word, stops, others, d) && NextNode(q.n.list, q.n.mem, env, q.cursor) == 0
    ensures d == q
  {
  }

  lemma Appended<T>(a: seq<T>, b: seq<T>, c: seq<T>)
    ensures a + b + c == a + (b + c)
  {
  }

  /** The effect is one of this action, and concerns another environment. */
  ghost predicate Does(f: Foreign, effect: Effect, env: Env) {
    match effect
    case Entered(x) => x.wrapper.env != env && f == Enter(x.addr, x.wrapper.env, x.wrapper.kind, x.wrapper.obj)
    case Left(a) => f == Leave(a)
  }

  /** The effects are those of the actions at these ascending positions. */
  ghost predicate Places(at: seq<nat>, effects: seq<Effect>, actions: seq<Foreign>, env: Env) {
    && |at| == |effects|
    && (forall i :: 0 <= i < |at| ==> at[i] < |actions| && Does(actions[at[i]], effects[i], env))
    && (forall i, j :: 0 <= i < j < |at| ==> at[i] < at[j])
  }

  /** Each effect is one of an action of its own, in the order of the actions. */
  ghost predicate ComeFrom(effects: seq<Effect>, actions: seq<Foreign>, env: Env) {
    exists at: seq<nat> :: Places(at, effects, actions, env)
  }

  lemma ComeFromBoth(first: seq<Effect>, one: seq<Foreign>, second: seq<Effect>, two: seq<Foreign>, env: Env)
    requires ComeFrom(first, one, env) && ComeFrom(second, two, env)
    ensures ComeFrom(first + second, one + two, env)
  {
    var a: seq<nat> :| Places(a, first, one, env);
    var b: seq<nat> :| Places(b, second, two, env);
    var shifted: seq<nat> := seq(|b|, i requires 0 <= i < |b| => |one| + b[i]);
    assert Places(a + shifted, first + second, one + two, env);
  }

  lemma EffectComesFrom(n: Native, env: Env, f: Foreign)
    ensures ComeFrom(EffectOf(n, env, f), [f], env)
  {
    if EffectOf(n, env, f) == [] {
      assert Places([], EffectOf(n, env, f), [f], env);
    } else {
      assert Places([0], EffectOf(n, env, f), [f], env);
    }
  }

  lemma {:induction false} AllEffectsComeFrom(n: Native, env: Env, word: nat, fs: seq<Foreign>)
    requires word > 0
    ensures ComeFrom(AllEffects(n, env, word, fs), fs, env)
    decreases |fs|
  {
    if fs == [] {
      assert Places([], AllEffects(n, env, word, fs), fs, env);
    } else {
      var k := |fs| - 1;
      var u := AllInterfered(n, env, word, fs[..k]);
      AllEffectsComeFrom(n, env, word, fs[..k]);
      EffectComesFrom(u, env, fs[k]);
      ComeFromBoth(AllEffects(n, env, word, fs[..k]), fs[..k], EffectOf(u, env, fs[k]), [fs[k]], env);
      assert fs[..k] + [fs[k]] == fs;
    }
  }

  lemma ServedAmidComesFrom(n: Native, env: Env, word: nat, a: Addr, ok: bool, before: seq<Foreign>,
                            during: seq<Foreign>, after: seq<Foreign>)
    requires Orderly(n, word) && Own(n.mem, env, a)
    ensures var o := ServedAmid(n, env, word, a, ok, before, during, after); ComeFrom(o.effects, o.log, env)
  {
    AllInterferedOrderly(n, env, word, before);
    var stopped := StoppedNode(AllInterfered(n, env, word, before), a, ok);
    var effects := AllEffects(n, env, word, before) + AllEffects(stopped, env, word, during);
    AllEffectsComeFrom(n, env, word, before);
    AllEffectsComeFrom(stopped, env, word, during);
    ComeFromBoth(AllEffects(n, env, word, before), before, AllEffects(stopped, env, word, during), during, env);
    var unlisted := Unlisted(AllInterfered(stopped, env, word, during), a);
    AllEffectsComeFrom(unlisted, env, word, after);
    ComeFromBoth(effects, before + during, AllEffects(unlisted, env, word, after), after, env);
  }

  lemma ScanComesFrom(p: Turn, env: Env, word: nat, fs: seq<Foreign>)
    requires Orderly(p.n, word) && ComeFrom(p.effects, p.log, env)
    ensures var q := Scan(p, env, word, fs); ComeFrom(q.effects, q.log, env)
  {
    AllEffectsComeFrom(p.n, env, word, fs);
    ComeFromBoth(p.effects, p.log, AllEffects(p.n, env, word, fs), fs, env);
  }

  lemma TurnComesFrom(q: Turn, env: Env, word: nat, ok: bool, fs: Round)
    requires Orderly(q.n, word) && NextNode(q.n.list, q.n.mem, env, q.cursor) != 0 && ComeFrom(q.effects, q.log, env)
    ensures var r := NextTurn(q, env, word, ok, fs); ComeFrom(r.effects, r.log, env)
  {
    FoundNext(q.n, env, q.cursor);
    var o := ServedAmid(q.n, env, word, NextAddr(q, env), ok, fs.find, fs.unlink, fs.free);
    ServedAmidComesFrom(q.n, env, word, NextAddr(q, env), ok, fs.find, fs.unlink, fs.free);
    ComeFromBoth(q.effects, q.log, o.effects, o.log, env);
  }

  lemma {:induction false} RestComesFrom(p: Turn, env: Env, word: nat, stops: nat -> bool, others: nat -> Round)
    requires Orderly(p.n, word) && ComeFrom(p.effects, p.log, env)
    ensures var d := RestAmid(p, env, word, stops, others); ComeFrom(d.effects, d.log, env)
    decreases |NodesAfter(p.n, env, p.cursor)|
  {
    var q := Scan(p, env, word, others(p.cursor).scan);
    ScanComesFrom(p, env, word, others(p.cursor).scan);
    var id := NextNode(q.n.list, q.n.mem, env, q.cursor);
    if id != 0 {
      TurnComesFrom(q, env, word, stops(id), others(q.cursor));
      RestComesFrom(NextTurn(q, env, word, stops(id), others(q.cursor)), env, word, stops, others);
    }
  }

  /** What a drain leaves of other environments is what they did themselves. */
  lemma DrainComesFrom(n: Native, env: Env, word: nat, stops: nat -> bool, others: nat -> Round)
    requires Orderly(n, word)
    ensures var d := DrainAmid(n, env, word, stops, others); ComeFrom(d.effects, d.log, env)
  {
    assert Places([], [], [], env);
    RestComesFrom(Turn(n, 0, true, [], []), env, word, stops, others);
  }

  /** The wrappers of the other environments, registered or not. */
  ghost function Strangers(mem: Memory, env: Env): Memory {
    map a | a in mem && mem[a].env != env :: mem[a]
  }

  ghost function Remembered(mem: Memory, effect: Effect): Memory {
    match effect
    case Entered(x) => mem[x.addr := x.wrapper]
    case Left(a) => mem - {a}
  }

  ghost function ReplayMemory(mem: Memory, effects: seq<Effect>): Memory
    decreases |effects|
  {
    if effects == [] then mem
    else Remembered(ReplayMemory(mem, effects[..|effects| - 1]), effects[|effects| - 1])
  }

  lemma {:induction false} ReplayMemoryBoth(mem: Memory, first: seq<Effect>, second: seq<Effect>)
    ensures ReplayMemory(mem, first + second) == ReplayMemory(ReplayMemory(mem, first), second)
    decreases |second|
  {
    if second == [] {
      assert first + second == first;
    } else {
      assert (first + second)[..|first + second| - 1] == first + second[..|second| - 1];
      ReplayMemoryBoth(mem, first, second[..|second| - 1]);
    }
  }

  lemma InterferedStrangers(n: Native, env: Env, word: nat, f: Foreign)
    requires word > 0
    ensures Strangers(Interfered(n, env, word, f).mem, env) == ReplayMemory(Strangers(n.mem, env), EffectOf(n, env, f))
  {
    var m, effects := Strangers(n.mem, env), EffectOf(n, env, f);
    if effects != [] {
      assert effects[..0] == [] && ReplayMemory(m, effects) == Remembered(m, effects[0]);
    }
  }

  lemma {:induction false} AllInterferedStrangers(n: Native, env: Env, word: nat, fs: seq<Foreign>)
    requires word > 0
    ensures Strangers(AllInterfered(n, env, word, fs).mem, env) ==
      ReplayMemory(Strangers(n.mem, env), AllEffects(n, env, word, fs))
    decreases |fs|
  {
    if fs != [] {
      var k := |fs| - 1;
      var u := AllInterfered(n, env, word, fs[..k]);
      AllInterferedStrangers(n, env, word, fs[..k]);
      InterferedStrangers(u, env, word, fs[k]);
      ReplayMemoryBoth(Strangers(n.mem, env), AllEffects(n, env, word, fs[..k]), EffectOf(u, env, fs[k]));
    }
  }

  /** Up to the section that unlinks the node, and from there. */
  lemma StoppedStrangers(n: Native, env: Env, word: nat, a: Addr, ok: bool, before: seq<Foreign>, during: seq<Foreign>)
    requires Orderly(n, word) && Own(n.mem, env, a) && Own(AllInterfered(n, env, word, before).mem, env, a)
    ensures var stopped := StoppedNode(AllInterfered(n, env, word, before), a, ok);
      Strangers(AllInterfered(stopped, env, word, during).mem, env) ==
      ReplayMemory(Strangers(n.mem, env), AllEffects(n, env, word, before) + AllEffects(stopped, env, word, during))
  {
    var found := AllInterfered(n, env, word, before);
    var stopped := StoppedNode(found, a, ok);
    AllInterferedStrangers(n, env, word, before);
    AllInterferedStrangers(stopped, env, word, during);
    assert Strangers(stopped.mem, env) == Strangers(found.mem, env);
    ReplayMemoryBoth(Strangers(n.mem, env), AllEffects(n, env, word, before), AllEffects(stopped, env, word, during));
  }

  lemma ReleasedStrangers(u: Native, env: Env, word: nat, a: Addr, after: seq<Foreign>)
    requires Orderly(u, word) && Own(u.mem, env, a)
    ensures Strangers(Dropped(AllInterfered(Unlisted(u, a), env, word, after), a).mem, env) ==
      ReplayMemory(Strangers(u.mem, env), AllEffects(Unlisted(u, a), env, word, after))
  {
    var unlisted := Unlisted(u, a);
    UnlistedOrderly(u, word, a);
    AllInterferedStrangers(unlisted, env, word, after);
    AllInterferedOrderly(unlisted, env, word, after);
    var w := AllInterfered(unlisted, env, word, after);
    assert Own(w.mem, env, a);
    assert Strangers(Dropped(w, a).mem, env) == Strangers(w.mem, env);
  }

  lemma ServedAmidStrangers(n: Native, env: Env, word: nat, a: Addr, ok: bool, before: seq<Foreign>,
                            during: seq<Foreign>, after: seq<Foreign>)
    requires Orderly(n, word) && Own(n.mem, env, a)
    ensures var o := ServedAmid(n, env, word, a, ok, before, during, after);
      Strangers(o.n.mem, env) == ReplayMemory(Strangers(n.mem, env), o.effects)
  {
    AllInterferedOrderly(n, env, word, before);
    var found := AllInterfered(n, env, word, before);
    var stopped := StoppedNode(found, a, ok);
    var u := AllInterfered(stopped, env, word, during);
    assert Own(found.mem, env, a);
    StoppedStrangers(n, env, word, a, ok, before, during);
    StoppedOrderly(found, word, a, ok);
    AllInterferedOrderly(stopped, env, word, during);
    assert Own(u.mem, env, a);
    ReleasedStrangers(u, env, word, a, after);
    ReplayMemoryBoth(Strangers(n.mem, env),
                     AllEffects(n, env, word, before) + AllEffects(stopped, env, word, during),
                     AllEffects(Unlisted(u, a), env, word, after));
  }

  lemma ScanStrangers(p: Turn, env: Env, word: nat, fs: seq<Foreign>, mem0: Memory)
    requires Orderly(p.n, word) && Strangers(p.n.mem, env) == ReplayMemory(mem0, p.effects)
    ensures var q := Scan(p, env, word, fs); Strangers(q.n.mem, env) == ReplayMemory(mem0, q.effects)
  {
    AllInterferedStrangers(p.n, env, word, fs);
    ReplayMemoryBoth(mem0, p.effects, AllEffects(p.n, env, word, fs));
  }

  lemma TurnStrangers(q: Turn, env: Env, word: nat, ok: bool, fs: Round, mem0: Memory)
    requires Orderly(q.n, word) && NextNode(q.n.list, q.n.mem, env, q.cursor) != 0
    requires Strangers(q.n.mem, env) == ReplayMemory(mem0, q.effects)
    ensures var r := NextTurn(q, env, word, ok, fs); Strangers(r.n.mem, env) == ReplayMemory(mem0, r.effects)
  {
    FoundNext(q.n, env, q.cursor);
    var o := ServedAmid(q.n, env, word, NextAddr(q, env), ok, fs.find, fs.unlink, fs.free);
    ServedAmidStrangers(q.n, env, word, NextAddr(q, env), ok, fs.find, fs.unlink, fs.free);
    ReplayMemoryBoth(mem0, q.effects, o.effects);
  }

  lemma {:induction false} RestStrangers(p: Turn, env: Env, word: nat, stops: nat -> bool, others: nat -> Round,
                                         mem0: Memory)
    requires Orderly(p.n, word) && Strangers(p.n.mem, env) == ReplayMemory(mem0, p.effects)
    ensures var d := RestAmid(p, env, word, stops, others); Strangers(d.n.mem, env) == ReplayMemory(mem0, d.effects)
    decreases |NodesAfter(p.n, env, p.cursor)|
  {
    var q := Scan(p, env, word, others(p.cursor).scan);
    ScanStrangers(p, env, word, others(p.cursor).scan, mem0);
    var id := NextNode(q.n.list, q.n.mem, env, q.cursor);
    if id != 0 {
      TurnStrangers(q, env, word, stops(id), others(q.cursor), mem0);
      RestStrangers(NextTurn(q, env, word, stops(id), others(q.cursor)), env, word, stops, others, mem0);
    }
  }

  lemma DrainStrangers(n: Native, env: Env, word: nat, stops: nat -> bool, others: nat -> Round)
    requires Orderly(n, word)
    ensures var d := DrainAmid(n, env, word, stops, others);
      Strangers(d.n.mem, env) == ReplayMemory(Strangers(n.mem, env), d.effects)
  {
    RestStrangers(Turn(n, 0, true, [], []), env, word, stops, others, Strangers(n.mem, env));
  }

  lemma SilentService(n: Native, env: Env, word: nat, a: Addr, ok: bool)
    requires Orderly(n, word) && Own(n.mem, env, a)
    ensures ServedAmid(n, env, word, a, ok, [], [], []) == Service(Served(n, a, ok), [], [])
  {
    var w := n.mem[a];
    var stopped := StoppedNode(n, a, ok);
    if StoppedAndFreed(w, ok).freed {
      StoredThenFreed(n.mem, a, StoppedAndFreed(w, ok), w);
      assert Dropped(Unlisted(stopped, a), a) == Gone(n, a, n.hooks, StopEvents(w, ok, true));
    }
  }

  /** Where nobody interferes. */
  lemma {:induction false} SilentRest(p: Turn, env: Env, word: nat, stops: nat -> bool, others: nat -> Round)
    requires Orderly(p.n, word) && Silent(others)
    ensures var d := RestAmid(p, env, word, stops, others);
      Rest(Point(p.n, p.cursor, p.all), env, stops) == Drainage(d.n, d.all)
    decreases |NodesAfter(p.n, env, p.cursor)|
  {
    var q := Scan(p, env, word, others(p.cursor).scan);
    assert q.n == p.n;
    var id := NextNode(q.n.list, q.n.mem, env, q.cursor);
    if id != 0 {
      FoundNext(q.n, env, q.cursor);
      SilentService(q.n, env, word, NextAddr(q, env), stops(id));
      AdvancedRest(Point(p.n, p.cursor, p.all), env, stops);
      SilentRest(NextTurn(q, env, word, stops(id), others(q.cursor)), env, word, stops, others);
    }
  }

  lemma SilentDrain(n: Native, env: Env, word: nat, stops: nat -> bool, others: nat -> Round)
    requires Orderly(n, word) && Silent(others)
    ensures var d := DrainAmid(n, env, word, stops, others); Drain(n, env, 0, stops) == Drainage(d.n, d.all)
  {
    SilentRest(Turn(n, 0, true, [], []), env, word, stops, others);
  }
}
