/** signer_teardown of the registry class, with its drain, does what the state machine does when nothing interleaves. */
module LifecycleDrain {
  import opened Common
  import opened Handles
  import opened Lifecycle
  import opened LifecycleInvariant
  import opened LifecycleSteps
  import opened LifecycleSafety
  import opened LifecycleProgress
  import opened LifecycleAgreement
  import R = HandleOutcomes

  /** What the native library answers: `stops` for the nodes that are drained, `ok` otherwise. */
  ghost function Answer(pc: Pc, stops: nat -> bool, ok: bool): bool {
    if pc.DrainStopping? then stops(pc.id) else ok
  }

  /** One step of the environment, in the middle of an operation. */
  ghost predicate OwnStep(s: State, t: State, e: Env, stops: nat -> bool, ok: bool) {
    && s.word > 0 && !PcOf(s, e).Idle?
    && Step(s, e, Resume(Answer(PcOf(s, e), stops, ok))) == Next(t)
  }

  /** The states of an environment that moves alone. */
  ghost predicate Path(p: seq<State>, e: Env, stops: nat -> bool, ok: bool) {
    && |p| > 0
    && forall i, j {:trigger OwnStep(p[i], p[j], e, stops, ok)} | 0 <= i && j == i + 1 && j < |p| ::
         OwnStep(p[i], p[j], e, stops, ok)
  }

  ghost predicate Leads(p: seq<State>, s: State, t: State, e: Env, stops: nat -> bool, ok: bool) {
    Path(p, e, stops, ok) && p[0] == s && p[|p| - 1] == t
  }

  lemma OnePath(s: State, t: State, e: Env, stops: nat -> bool, ok: bool)
    requires OwnStep(s, t, e, stops, ok)
    ensures Leads([s, t], s, t, e, stops, ok)
  {
    var p := [s, t];
    forall i, j | 0 <= i && j == i + 1 && j < |p| ensures OwnStep(p[i], p[j], e, stops, ok) {
      assert i == 0 && j == 1;
    }
  }

  lemma PathJoin(p: seq<State>, q: seq<State>, s: State, m: State, t: State, e: Env, stops: nat -> bool, ok: bool)
    returns (r: seq<State>)
    requires Leads(p, s, m, e, stops, ok) && Leads(q, m, t, e, stops, ok)
    ensures Leads(r, s, t, e, stops, ok)
  {
    r := p + q[1..];
    var k := |p| - 1;
    forall i, j | 0 <= i && j == i + 1 && j < |r| ensures OwnStep(r[i], r[j], e, stops, ok) {
      if j <= k {
        assert OwnStep(p[i], p[j], e, stops, ok);
      } else {
        assert r[j] == q[j - k] && r[i] == q[i - k];
        assert OwnStep(q[i - k], q[j - k], e, stops, ok);
      }
    }
  }

  /** Such a path is a run in which no other environment moves. */
  lemma {:induction false} PathIsRun(p: seq<State>, e: Env, stops: nat -> bool, ok: bool) returns (moves: seq<Move>)
    requires Path(p, e, stops, ok) && p[0].word > 0
    ensures Run(p[0], moves) == Next(p[|p| - 1])
    ensures forall m :: m in moves ==> m.env == e && m.choice.Resume?
  {
    moves := [];
    if |p| > 1 {
      assert OwnStep(p[0], p[1], e, stops, ok);
      TailPath(p, e, stops, ok);
      var rest := PathIsRun(p[1..], e, stops, ok);
      var m := Move(e, Resume(Answer(PcOf(p[0], e), stops, ok)));
      RunCons(p[0], m, rest);
      moves := [m] + rest;
    }
  }

  lemma TailPath(p: seq<State>, e: Env, stops: nat -> bool, ok: bool)
    requires Path(p, e, stops, ok) && |p| > 1
    ensures Path(p[1..], e, stops, ok)
  {
    var q := p[1..];
    forall i, j | 0 <= i && j == i + 1 && j < |q| ensures OwnStep(q[i], q[j], e, stops, ok) {
      assert OwnStep(p[i + 1], p[j + 1], e, stops, ok);
    }
  }

  // ---------- One round of the drain ----------

  /** The environment is in the drain of its signer. */
  ghost predicate InTeardown(s: State, e: Env, signer: Addr) {
    && s.word > 0 && R.Sound(Seen(s))
    && signer in s.list && signer in s.mem && s.mem[signer].env == e && s.mem[signer].kind == Signer
  }

  lemma ScanStep(s: State, e: Env, signer: Addr, cursor: nat, stopped: bool, stops: nat -> bool, ok: bool)
    requires InTeardown(s, e, signer) && PcOf(s, e) == Scanning(signer, cursor, stopped)
    ensures OwnStep(s, Goto(s, e, Scanned(signer, NextNode(s.list, s.mem, e, cursor), stopped)), e, stops, ok)
  {
  }

  lemma FindStep(s: State, e: Env, signer: Addr, id: nat, stopped: bool, stops: nat -> bool, ok: bool, a: Addr)
    requires InTeardown(s, e, signer) && PcOf(s, e) == DrainFinding(signer, id, stopped)
    requires FindTeardown(s.list, s.mem, id, Node) == Some(a)
    ensures OwnStep(s, Goto(s, e, DrainStopping(signer, id, a, stopped)), e, stops, ok)
  {
  }

  ghost function StoppedState(s: State, e: Env, signer: Addr, id: nat, a: Addr, stopped: bool, ok: bool): State
    requires a in s.mem
  {
    var w := s.mem[a];
    Store(s, e, a, StoppedAndFreed(w, ok), StopEvents(w, ok, true),
          if StoppedAndFreed(w, ok).freed then DrainUnlinking(signer, id, a, stopped) else Scanning(signer, id, false))
  }

  lemma StopStep(s: State, e: Env, signer: Addr, id: nat, a: Addr, stopped: bool, stops: nat -> bool, ok: bool)
    requires InTeardown(s, e, signer) && PcOf(s, e) == DrainStopping(signer, id, a, stopped) && a in s.mem
    ensures OwnStep(s, StoppedState(s, e, signer, id, a, stopped, stops(id)), e, stops, ok)
  {
  }

  lemma TakeOutStep(s: State, e: Env, signer: Addr, id: nat, a: Addr, stopped: bool, stops: nat -> bool, ok: bool)
    requires InTeardown(s, e, signer) && PcOf(s, e) == DrainUnlinking(signer, id, a, stopped)
    ensures OwnStep(s, Unlinked(s, e, a, DrainFreeing(signer, id, a, stopped)), e, stops, ok)
  {
  }

  lemma GiveBackStep(s: State, e: Env, signer: Addr, id: nat, a: Addr, stopped: bool, stops: nat -> bool, ok: bool)
    requires s.word > 0 && Resident(s.list, s.mem) && PcOf(s, e) == DrainFreeing(signer, id, a, stopped) && a in s.mem
    ensures OwnStep(s, Released(s, e, a, Scanning(signer, id, stopped)), e, stops, ok)
  {
  }

  lemma ReleasedSeen(u: State, e: Env, signer: Addr, id: nat, a: Addr, stopped: bool)
    requires InTeardown(u, e, signer) && a in u.mem && a != signer
    ensures var v := Unlinked(u, e, a, DrainFreeing(signer, id, a, stopped));
      var t := Released(v, e, a, Scanning(signer, id, stopped));
      && Resident(v.list, v.mem)
      && InTeardown(t, e, signer) && t.mem[signer] == u.mem[signer] && Seen(t) == R.Gone(Seen(u), a, u.hooks, [])
  {
    RemoveExactly(u.list, u.mem, a);
    var v := Unlinked(u, e, a, DrainFreeing(signer, id, a, stopped));
    var t := Released(v, e, a, Scanning(signer, id, stopped));
    assert t.trace == u.trace + [];
    assert signer in t.list;
  }

  lemma ReleasePath(u: State, e: Env, signer: Addr, id: nat, a: Addr, stopped: bool, stops: nat -> bool, ok: bool)
    returns (p: seq<State>, t: State)
    requires InTeardown(u, e, signer) && PcOf(u, e) == DrainUnlinking(signer, id, a, stopped) && a in u.mem
    requires a != signer
    ensures Leads(p, u, t, e, stops, ok) && PcOf(t, e) == Scanning(signer, id, stopped)
    ensures InTeardown(t, e, signer) && t.mem[signer] == u.mem[signer] && Seen(t) == R.Gone(Seen(u), a, u.hooks, [])
  {
    var v := Unlinked(u, e, a, DrainFreeing(signer, id, a, stopped));
    t := Released(v, e, a, Scanning(signer, id, stopped));
    ReleasedSeen(u, e, signer, id, a, stopped);
    TakeOutStep(u, e, signer, id, a, stopped, stops, ok);
    GiveBackStep(v, e, signer, id, a, stopped, stops, ok);
    OnePath(u, v, e, stops, ok);
    OnePath(v, t, e, stops, ok);
    p := PathJoin([u, v], [v, t], u, v, t, e, stops, ok);
  }

  lemma StoppedSeen(s: State, e: Env, signer: Addr, id: nat, a: Addr, stopped: bool, ok: bool)
    requires InTeardown(s, e, signer) && a in s.list && s.mem[a].kind == Node
    ensures var u := StoppedState(s, e, signer, id, a, stopped, ok);
      && InTeardown(u, e, signer) && u.mem[signer] == s.mem[signer]
      && (!u.mem[a].freed ==> Seen(u) == R.Served(Seen(s), a, ok))
      && (u.mem[a].freed ==> R.Gone(Seen(u), a, u.hooks, []) == R.Served(Seen(s), a, ok))
  {
    var u := StoppedState(s, e, signer, id, a, stopped, ok);
    R.StoredThenFreed(s.mem, a, u.mem[a], u.mem[a]);
  }

  /** From the stop of a node to the next scan. */
  lemma StopPath(s: State, e: Env, signer: Addr, id: nat, a: Addr, stopped: bool, stops: nat -> bool, ok: bool)
    returns (p: seq<State>, t: State)
    requires InTeardown(s, e, signer) && PcOf(s, e) == DrainStopping(signer, id, a, stopped)
    requires a in s.list && s.mem[a].kind == Node && s.mem[a].id == id
    ensures Leads(p, s, t, e, stops, ok) && InTeardown(t, e, signer) && t.mem[signer] == s.mem[signer]
    ensures PcOf(t, e) == Scanning(signer, id, stopped && R.Drained(s.mem[a], stops))
    ensures Seen(t) == R.Served(Seen(s), a, stops(id))
  {
    var u := StoppedState(s, e, signer, id, a, stopped, stops(id));
    StopStep(s, e, signer, id, a, stopped, stops, ok);
    OnePath(s, u, e, stops, ok);
    StoppedSeen(s, e, signer, id, a, stopped, stops(id));
    if u.mem[a].freed {
      var q;
      q, t := ReleasePath(u, e, signer, id, a, stopped, stops, ok);
      p := PathJoin([s, u], q, s, u, t, e, stops, ok);
    } else {
      p, t := [s, u], u;
    }
  }

  /** One round, from scan to scan. */
  lemma RoundPath(s: State, e: Env, signer: Addr, cursor: nat, stopped: bool, stops: nat -> bool, ok: bool)
    returns (p: seq<State>, t: State)
    requires InTeardown(s, e, signer) && PcOf(s, e) == Scanning(signer, cursor, stopped)
    requires NextNode(s.list, s.mem, e, cursor) != 0
    ensures Leads(p, s, t, e, stops, ok) && InTeardown(t, e, signer) && t.mem[signer] == s.mem[signer]
    ensures var q := R.Advanced(R.Point(Seen(s), cursor, stopped), e, stops);
      Seen(t) == q.n && PcOf(t, e) == Scanning(signer, q.cursor, q.all)
  {
    var id := NextNode(s.list, s.mem, e, cursor);
    var a := R.Address(FindTeardown(s.list, s.mem, id, Node));
    R.FoundNext(Seen(s), e, cursor);
    R.AdvancedIs(R.Point(Seen(s), cursor, stopped), e, stops, a);
    var u := Goto(s, e, DrainFinding(signer, id, stopped));
    var v := Goto(u, e, DrainStopping(signer, id, a, stopped));
    var q := LookupPath(s, e, signer, cursor, stopped, stops, ok, a);
    var r;
    r, t := StopPath(v, e, signer, id, a, stopped, stops, ok);
    p := PathJoin(q, r, s, v, t, e, stops, ok);
  }

  lemma LookupPath(s: State, e: Env, signer: Addr, cursor: nat, stopped: bool, stops: nat -> bool, ok: bool, a: Addr)
    returns (p: seq<State>)
    requires InTeardown(s, e, signer) && PcOf(s, e) == Scanning(signer, cursor, stopped)
    requires var id := NextNode(s.list, s.mem, e, cursor); id != 0 && FindTeardown(s.list, s.mem, id, Node) == Some(a)
    ensures var id := NextNode(s.list, s.mem, e, cursor);
      Leads(p, s, Goto(Goto(s, e, DrainFinding(signer, id, stopped)), e, DrainStopping(signer, id, a, stopped)), e,
            stops, ok)
  {
    var id := NextNode(s.list, s.mem, e, cursor);
    var u := Goto(s, e, DrainFinding(signer, id, stopped));
    var v := Goto(u, e, DrainStopping(signer, id, a, stopped));
    ScanStep(s, e, signer, cursor, stopped, stops, ok);
    FindStep(u, e, signer, id, stopped, stops, ok, a);
    OnePath(s, u, e, stops, ok);
    OnePath(u, v, e, stops, ok);
    p := PathJoin([s, u], [u, v], s, u, v, e, stops, ok);
  }

  // ---------- The whole callback ----------

  lemma LastScan(s: State, e: Env, signer: Addr, cursor: nat, stopped: bool, stops: nat -> bool, ok: bool)
    returns (p: seq<State>, t: State)
    requires InTeardown(s, e, signer) && PcOf(s, e) == Scanning(signer, cursor, stopped)
    requires NextNode(s.list, s.mem, e, cursor) == 0
    ensures Leads(p, s, t, e, stops, ok) && InTeardown(t, e, signer) && t.mem[signer] == s.mem[signer]
    ensures Seen(t) == Seen(s) && PcOf(t, e) == (if stopped then SignerStopping(signer) else Idle)
  {
    t := Goto(s, e, Scanned(signer, 0, stopped));
    ScanStep(s, e, signer, cursor, stopped, stops, ok);
    OnePath(s, t, e, stops, ok);
    p := [s, t];
  }

  /** The drain, up to the stop of the signer or to its end. */
  lemma {:induction false} DrainPath(s: State, e: Env, signer: Addr, cursor: nat, stopped: bool, stops: nat -> bool,
                                     ok: bool,
                                     d: R.Drainage)
    returns (p: seq<State>, t: State)
    requires InTeardown(s, e, signer) && PcOf(s, e) == Scanning(signer, cursor, stopped)
    requires R.Comes(R.Point(Seen(s), cursor, stopped), e, stops, d)
    ensures Leads(p, s, t, e, stops, ok) && InTeardown(t, e, signer) && t.mem[signer] == s.mem[signer]
    ensures Seen(t) == d.n && PcOf(t, e) == (if d.all then SignerStopping(signer) else Idle)
    decreases |R.NodesAfter(Seen(s), e, cursor)|
  {
    var at := R.Point(Seen(s), cursor, stopped);
    if NextNode(s.list, s.mem, e, cursor) == 0 {
      p, t := LastScan(s, e, signer, cursor, stopped, stops, ok);
      R.ComesEnd(at, e, stops, d);
    } else {
      var q, u := RoundPath(s, e, signer, cursor, stopped, stops, ok);
      var next := R.Advanced(at, e, stops);
      FewerLeft(at, e, stops);
      R.ComesOn(at, e, stops, d);
      var r;
      r, t := DrainPath(u, e, signer, next.cursor, next.all, stops, ok, d);
      p := PathJoin(q, r, s, u, t, e, stops, ok);
    }
  }

  lemma FewerLeft(p: R.Point, e: Env, stops: nat -> bool)
    requires R.Sound(p.n) && NextNode(p.n.list, p.n.mem, e, p.cursor) != 0
    ensures var q := R.Advanced(p, e, stops); |R.NodesAfter(q.n, e, q.cursor)| < |R.NodesAfter(p.n, e, p.cursor)|
  {
    var id := NextNode(p.n.list, p.n.mem, e, p.cursor);
    var a := R.Address(FindTeardown(p.n.list, p.n.mem, id, Node));
    R.FoundNext(p.n, e, p.cursor);
    R.AdvancedIs(p, e, stops, a);
    R.ServedSmaller(p.n, e, p.cursor, a, stops(id));
  }

  ghost function SignerStoppedState(s: State, e: Env, a: Addr, ok: bool): State
    requires a in s.mem
  {
    var w := s.mem[a];
    if w.freed || ok then Store(s, e, a, w.(freed := true), SignerTeardownEvents(w, ok), Unlinking(a))
    else Store(s, e, a, w, SignerTeardownEvents(w, ok), Idle)
  }

  lemma SignerStopStep(s: State, e: Env, a: Addr, stops: nat -> bool, ok: bool)
    requires s.word > 0 && Resident(s.list, s.mem) && PcOf(s, e) == SignerStopping(a) && a in s.mem
    ensures OwnStep(s, SignerStoppedState(s, e, a, ok), e, stops, ok)
  {
  }

  lemma UnlinkPath(u: State, e: Env, a: Addr, stops: nat -> bool, ok: bool) returns (p: seq<State>, t: State)
    requires u.word > 0 && R.Sound(Seen(u)) && PcOf(u, e) == Unlinking(a) && a in u.mem
    ensures t == Released(Unlinked(u, e, a, Freeing(a)), e, a, Idle) && Leads(p, u, t, e, stops, ok)
  {
    var v := Unlinked(u, e, a, Freeing(a));
    t := Released(v, e, a, Idle);
    RemoveExactly(u.list, u.mem, a);
    UnlinkStep(u, e, a, ok);
    FreeStep(v, e, a, ok);
    OnePath(u, v, e, stops, ok);
    OnePath(v, t, e, stops, ok);
    p := PathJoin([u, v], [v, t], u, v, t, e, stops, ok);
  }

  lemma SignerStopPath(s: State, e: Env, a: Addr, stops: nat -> bool, ok: bool) returns (p: seq<State>, t: State)
    requires s.word > 0 && R.Sound(Seen(s)) && PcOf(s, e) == SignerStopping(a) && a in s.list && a in s.mem
    ensures Leads(p, s, t, e, stops, ok) && PcOf(t, e).Idle?
    ensures Seen(t) == R.SignerRevoked(R.Drainage(Seen(s), true), a, s.mem[a], ok)
  {
    var u := SignerStoppedState(s, e, a, ok);
    SignerStopStep(s, e, a, stops, ok);
    OnePath(s, u, e, stops, ok);
    if s.mem[a].freed || ok {
      var q;
      q, t := UnlinkPath(u, e, a, stops, ok);
      p := PathJoin([s, u], q, s, u, t, e, stops, ok);
      R.StoredThenFreed(s.mem, a, u.mem[a], u.mem[a]);
    } else {
      p, t := [s, u], u;
      assert s.mem[a := s.mem[a]] == s.mem;
    }
  }

  /** From the clearing of the flag on. */
  lemma ClearedPath(s: State, e: Env, a: Addr, stops: nat -> bool, ok: bool) returns (p: seq<State>, t: State)
    requires InTeardown(s, e, a) && PcOf(s, e) == Scanning(a, 0, true)
    ensures Leads(p, s, t, e, stops, ok) && PcOf(t, e).Idle?
    ensures Seen(t) == R.SignerRevoked(R.Drain(Seen(s), e, 0, stops), a, s.mem[a], ok)
  {
    var q, u := DrainPath(s, e, a, 0, true, stops, ok, R.Drain(Seen(s), e, 0, stops));
    if PcOf(u, e).Idle? {
      p, t := q, u;
    } else {
      var r;
      r, t := SignerStopPath(u, e, a, stops, ok);
      p := PathJoin(q, r, s, u, t, e, stops, ok);
    }
  }

  ghost function LookedUp(s: State, e: Env, id: nat): State
    requires Resident(s.list, s.mem)
  {
    var found := FindTeardown(s.list, s.mem, id, Signer);
    if found.None? then Goto(s, e, Idle)
    else Store(s, e, found.value, s.mem[found.value].(hooked := false), [], Scanning(found.value, 0, true))
  }

  lemma LookupStep(s: State, e: Env, id: nat, stops: nat -> bool, ok: bool)
    requires s.word > 0 && Resident(s.list, s.mem) && PcOf(s, e) == SignerTeardown(id)
    ensures OwnStep(s, LookedUp(s, e, id), e, stops, ok)
  {
  }

  lemma LookedUpSeen(s: State, e: Env, a: Addr)
    requires Safe(s) && PcOf(s, e).SignerTeardown? && FindTeardown(s.list, s.mem, PcOf(s, e).id, Signer) == Some(a)
    ensures var u := Store(s, e, a, s.mem[a].(hooked := false), [], Scanning(a, 0, true));
      InTeardown(u, e, a) && Seen(u) == Seen(s).(mem := s.mem[a := s.mem[a].(hooked := false)])
  {
    assert FiringInv(s, e, PcOf(s, e)) by { assert EnvInv(s, e); }
    assert s.mem[a].env == e;
    R.UnflaggedSound(Seen(s), a);
    assert s.trace + [] == s.trace;
  }

  lemma FoundPath(s: State, e: Env, id: nat, a: Addr, stops: nat -> bool, ok: bool) returns (p: seq<State>, t: State)
    requires Safe(s) && PcOf(s, e) == SignerTeardown(id) && FindTeardown(s.list, s.mem, id, Signer) == Some(a)
    ensures Leads(p, s, t, e, stops, ok) && PcOf(t, e).Idle?
    ensures R.Sound(Seen(s)) && Seen(t) == R.SignerTornDown(Seen(s), id, stops, ok)
  {
    var u := LookedUp(s, e, id);
    LookupStep(s, e, id, stops, ok);
    OnePath(s, u, e, stops, ok);
    LookedUpSeen(s, e, a);
    var q;
    q, t := ClearedPath(u, e, a, stops, ok);
    p := PathJoin([s, u], q, s, u, t, e, stops, ok);
  }

  lemma NotFoundPath(s: State, e: Env, id: nat, stops: nat -> bool, ok: bool) returns (p: seq<State>, t: State)
    requires Safe(s) && PcOf(s, e) == SignerTeardown(id) && FindTeardown(s.list, s.mem, id, Signer).None?
    ensures Leads(p, s, t, e, stops, ok) && PcOf(t, e).Idle?
    ensures R.Sound(Seen(s)) && Seen(t) == R.SignerTornDown(Seen(s), id, stops, ok)
  {
    t := LookedUp(s, e, id);
    LookupStep(s, e, id, stops, ok);
    OnePath(s, t, e, stops, ok);
    p := [s, t];
  }

  lemma TeardownPath(s: State, e: Env, id: nat, stops: nat -> bool, ok: bool) returns (p: seq<State>, t: State)
    requires Safe(s) && PcOf(s, e) == SignerTeardown(id)
    ensures Leads(p, s, t, e, stops, ok) && PcOf(t, e).Idle?
    ensures R.Sound(Seen(s)) && Seen(t) == R.SignerTornDown(Seen(s), id, stops, ok)
  {
    var found := FindTeardown(s.list, s.mem, id, Signer);
    if found.None? {
      p, t := NotFoundPath(s, e, id, stops, ok);
    } else {
      p, t := FoundPath(s, e, id, found.value, stops, ok);
    }
  }

  /** From every reachable state in which libjs runs the callback of a signer: if no other environment moves until it
      returns, whatever the native library answers, the outcome is that of signer_teardown of the registry class. */
  lemma SignerTeardownAgrees(s: State, e: Env, id: nat, stops: nat -> bool, ok: bool)
    returns (moves: seq<Move>, t: State)
    requires Reachable(s) && s.word > 0 && PcOf(s, e) == SignerTeardown(id)
    ensures forall m :: m in moves ==> m.env == e && m.choice.Resume?
    ensures R.Sound(Seen(s)) && Run(s, moves) == Next(t) && PcOf(t, e).Idle?
    ensures Seen(t) == R.SignerTornDown(Seen(s), id, stops, ok)
  {
    ReachableSafe(s);
    var p;
    p, t := TeardownPath(s, e, id, stops, ok);
    moves := PathIsRun(p, e, stops, ok);
  }
}
