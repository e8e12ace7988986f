/** Any number of calls taking turns, one statement at a time, while the clock runs. */
module Traces {
  import opened Users
  import opened Service

  datatype Client = Client(call: Call, pc: Pc)

  datatype State = State(now: int, sh: Shared, clients: map<nat, Client>)

  // Evict: Redis may drop an entry at any time.
  datatype Event =
    | Tick(d: nat)
    | Begin(p: nat, call: Call)
    | Step(p: nat, gen: string, lost: bool)
    | Evict(key: string)

  // A generated id is new to the table it goes into.
  predicate NewTo(sh: Shared, pc: Pc, gen: string) {
    (pc.Inserting? ==> gen !in sh.users) && (pc.Registering? ==> gen !in sh.garage)
  }

  // Every call has its own number.
  predicate Enabled(s: State, e: Event) {
    match e
    case Begin(p, _) => p !in s.clients
    case Step(p, gen, _) =>
      p in s.clients && !s.clients[p].pc.Done? && NewTo(s.sh, s.clients[p].pc, gen)
    case _ => true
  }

  function Apply(cfg: Config, s: State, e: Event): State {
    match e
    case Tick(d) => s.(now := s.now + d)
    case Begin(p, call) => s.(clients := s.clients[p := Client(call, Start(cfg, call))])
    case Step(p, gen, lost) =>
      if p in s.clients then
        var x := Exec(cfg, s.sh, s.clients[p].pc, s.now, gen, lost);
        s.(sh := x.shared, clients := s.clients[p := s.clients[p].(pc := x.pc)])
      else s
    case Evict(key) => s.(sh := s.sh.(cache := s.sh.cache - {key}))
  }

  datatype Trace = Trace(cfg: Config, ss: seq<State>, es: seq<Event>)

  ghost predicate IsTrace(tr: Trace) {
    && |tr.ss| == |tr.es| + 1
    && forall k | 0 <= k < |tr.es| :: StepAt(tr, k)
  }

  ghost predicate StepAt(tr: Trace, k: nat)
    requires |tr.ss| == |tr.es| + 1 && k < |tr.es|
  {
    Enabled(tr.ss[k], tr.es[k]) && tr.ss[k + 1] == Apply(tr.cfg, tr.ss[k], tr.es[k])
  }

  // A trace from a moment with no call in flight and nothing cached; the tables may hold rows.
  ghost predicate IsRun(tr: Trace) {
    IsTrace(tr) && tr.ss[0].clients == map[] && tr.ss[0].sh.cache == map[]
  }

  ghost predicate Reaches(tr: Trace, k: nat) {
    IsTrace(tr) && k < |tr.ss|
  }

  // One more event.
  function Then(tr: Trace, e: Event): Trace
    requires |tr.ss| == |tr.es| + 1
  {
    Trace(tr.cfg, tr.ss + [Apply(tr.cfg, tr.ss[|tr.es|], e)], tr.es + [e])
  }

  lemma ThenIsTrace(tr: Trace, e: Event)
    requires IsTrace(tr) && Enabled(tr.ss[|tr.es|], e)
    ensures IsTrace(Then(tr, e))
  {
    var tr' := Then(tr, e);
    forall k | 0 <= k < |tr'.es| ensures StepAt(tr', k) {
      if k < |tr.es| { assert StepAt(tr, k); }
    }
  }

  // Where one statement of call p leads, spelled out.
  function Moved(s: State, p: nat, sh: Shared, pc: Pc): State
    requires p in s.clients
  {
    s.(sh := sh, clients := s.clients[p := s.clients[p].(pc := pc)])
  }

  // ----- Facts about every trace -----

  lemma {:induction false} UsersEvolve(tr: Trace, i: nat, k: nat)
    requires Reaches(tr, k) && i <= k
    ensures Evolves(tr.ss[i].sh.users, tr.ss[k].sh.users)
    ensures tr.ss[i].now <= tr.ss[k].now
  {
    if i < k {
      UsersEvolve(tr, i, k - 1);
      assert StepAt(tr, k - 1);
      var s, e := tr.ss[k - 1], tr.es[k - 1];
      if e.Step? {
        ExecProgress(tr.cfg, s.sh, s.clients[e.p].pc, s.now, e.gen, e.lost);
      }
      EvolvesTransitive(tr.ss[i].sh.users, s.sh.users, tr.ss[k].sh.users);
    }
  }

  // A call keeps its number and its request; an answered call stays answered.
  lemma {:induction false} ClientsPersist(tr: Trace, i: nat, k: nat, p: nat)
    requires Reaches(tr, k) && i <= k && p in tr.ss[i].clients
    ensures p in tr.ss[k].clients && tr.ss[k].clients[p].call == tr.ss[i].clients[p].call
    ensures tr.ss[i].clients[p].pc.Done? ==> tr.ss[k].clients[p] == tr.ss[i].clients[p]
    ensures Remaining(tr.ss[k].clients[p].pc) <= Remaining(tr.ss[i].clients[p].pc)
  {
    if i < k {
      ClientsPersist(tr, i, k - 1, p);
      assert StepAt(tr, k - 1);
      var s, e := tr.ss[k - 1], tr.es[k - 1];
      if e.Step? {
        ExecProgress(tr.cfg, s.sh, s.clients[e.p].pc, s.now, e.gen, e.lost);
      }
    }
  }

  // Where a call began.
  lemma {:induction false} BeganAt(tr: Trace, k: nat, p: nat) returns (i: nat)
    requires IsRun(tr) && Reaches(tr, k) && p in tr.ss[k].clients
    ensures i < k && tr.es[i] == Begin(p, tr.ss[k].clients[p].call) && p !in tr.ss[i].clients
  {
    assert k > 0;
    assert StepAt(tr, k - 1);
    if p in tr.ss[k - 1].clients {
      i := BeganAt(tr, k - 1, p);
    } else {
      i := k - 1;
    }
  }

  // ----- Wait-freedom -----

  // The statements call p ran among the events i .. k-1.
  ghost function StatementsOf(tr: Trace, p: nat, i: nat, k: nat): nat
    requires Reaches(tr, k) && i <= k
  {
    if i == k then 0
    else StatementsOf(tr, p, i, k - 1) + if tr.es[k - 1].Step? && tr.es[k - 1].p == p then 1 else 0
  }

  // However the others run, a call has answered after at most Remaining statements of its own.
  lemma {:induction false} WaitFree(tr: Trace, p: nat, i: nat, k: nat)
    requires Reaches(tr, k) && i <= k && p in tr.ss[i].clients
    ensures p in tr.ss[k].clients
    ensures StatementsOf(tr, p, i, k) + Remaining(tr.ss[k].clients[p].pc)
            <= Remaining(tr.ss[i].clients[p].pc)
  {
    if i < k {
      WaitFree(tr, p, i, k - 1);
      assert StepAt(tr, k - 1);
      var s, e := tr.ss[k - 1], tr.es[k - 1];
      if e.Step? {
        ExecProgress(tr.cfg, s.sh, s.clients[e.p].pc, s.now, e.gen, e.lost);
      }
    }
  }

  // In particular no call runs more than three statements, after three it has its answer, and until
  // then nothing keeps it from running the next one.
  lemma AtMostThreeStatements(tr: Trace, p: nat, call: Call, i: nat, k: nat)
    requires Reaches(tr, k) && i < k && tr.es[i] == Begin(p, call)
    ensures p in tr.ss[k].clients && StatementsOf(tr, p, i + 1, k) <= 3
    ensures StatementsOf(tr, p, i + 1, k) == 3 ==> tr.ss[k].clients[p].pc.Done?
    ensures
      var s := tr.ss[k];
      forall gen, lost | NewTo(s.sh, s.clients[p].pc, gen) :: s.clients[p].pc.Done? || Enabled(s, Step(p, gen, lost))
  {
    assert StepAt(tr, i);
    WaitFree(tr, p, i + 1, k);
  }
}
