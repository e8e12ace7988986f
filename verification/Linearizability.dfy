/**
  The user operations, each several statements without a transaction, behave as if every call
  took effect in one indivisible step between its request and its answer.
 */
module Linearizability {
  import opened Wrappers
  import opened Requests
  import opened Users
  import opened Service
  import opened Traces

  predicate Writes(call: Call) {
    call.CreateUser? || call.UpsertDriver? || call.UpdateUser? || call.DeleteUser?
  }

  datatype Atomic = Atomic(table: Table, resp: Response)

  // The specification: the whole call at once against the table.
  function AtomicCall(cfg: Config, t: Table, call: Call, now: int, gen: string): Atomic
    requires Writes(call)
  {
    match call
    case CreateUser(r) =>
      if !ValidCreate(cfg.parses, r) then Atomic(t, Profile(Err(Validation)))
      else var o := GetOrCreate(t, CreateRow(r), gen, now); Atomic(o.table, Profile(o.result))
    case UpsertDriver(r) =>
      if !ValidUpsert(r) then Atomic(t, Profile(Err(Validation)))
      else var o := GetOrCreate(t, DriverRow(r), gen, now); Atomic(o.table, Profile(o.result))
    case UpdateUser(r) =>
      if !ValidUpdate(cfg.parses, r) then Atomic(t, Profile(Err(Validation)))
      else var o := Update(t, r.id, r.patch, r.expected, now); Atomic(o.table, Profile(o.result))
    case DeleteUser(id) =>
      var o := Remove(t, id, now); Atomic(o.table, Removal(o.result))
  }

  // The answer is fixed from here on, although a cache command may still follow.
  function Decision(pc: Pc): Option<Response> {
    match pc
    case Invalidate(_, resp) => Some(resp)
    case Done(resp) => Some(resp)
    case _ => None
  }

  predicate Decided(s: State, p: nat) {
    p in s.clients && Decision(s.clients[p].pc).Some?
  }

  // Where a call's program counter can be.
  ghost predicate Fits(cfg: Config, call: Call, pc: Pc) {
    pc.Done? || (pc.Invalidate? && (call.UpdateUser? || call.DeleteUser?)) || match call
      case CreateUser(r) => ValidCreate(cfg.parses, r)
                            && pc in {Lookup(CreateRow(r)), Inserting(CreateRow(r)), Refetch(CreateRow(r))}
      case UpsertDriver(r) => ValidUpsert(r)
                              && pc in {Lookup(DriverRow(r)), Inserting(DriverRow(r)), Refetch(DriverRow(r))}
      case UpdateUser(r) => ValidUpdate(cfg.parses, r) && pc == Updating(r)
      case DeleteUser(id) => pc == Deleting(id) || pc == Checking(id)
      case GetUserByID(id) => pc == CacheGet(id) || pc == Selecting(id) || (pc.CacheSet? && pc.id == id)
      case RegisterVehicle(r) => ValidVehicle(r) && (pc == CheckingDriver(r) || pc == Registering(r))
  }

  lemma {:induction false} ClientFits(tr: Trace, k: nat, p: nat)
    requires IsRun(tr) && Reaches(tr, k) && p in tr.ss[k].clients
    ensures Fits(tr.cfg, tr.ss[k].clients[p].call, tr.ss[k].clients[p].pc)
  {
    assert k > 0;
    assert StepAt(tr, k - 1);
    if p in tr.ss[k - 1].clients {
      ClientFits(tr, k - 1, p);
    }
  }

  // Only an INSERT that hit a unique key leads to the re-SELECT.
  lemma ExecToRefetch(cfg: Config, sh: Shared, call: Call, pc: Pc, now: int, gen: string, lost: bool)
    requires !pc.Done? && Fits(cfg, call, pc) && NewTo(sh, pc, gen) && Exec(cfg, sh, pc, now, gen, lost).pc.Refetch?
    ensures
      var x := Exec(cfg, sh, pc, now, gen, lost);
      Taken(sh.users, x.pc.row.ext) && x.shared.users == sh.users
  {
    assert pc.Inserting?;
  }

  // A unique violation proves the row exists, and rows stay: the re-SELECT finds it.
  lemma {:induction false} RefetchFinds(tr: Trace, k: nat, p: nat)
    requires IsRun(tr) && Reaches(tr, k) && p in tr.ss[k].clients
    requires tr.ss[k].clients[p].pc.Refetch?
    ensures Taken(tr.ss[k].sh.users, tr.ss[k].clients[p].pc.row.ext)
  {
    BeganFirst(tr, k, p);
    assert StepAt(tr, k - 1);
    var s, e := tr.ss[k - 1], tr.es[k - 1];
    if e.Step? && e.p == p {
      ClientFits(tr, k - 1, p);
      ExecToRefetch(tr.cfg, s.sh, s.clients[p].call, s.clients[p].pc, s.now, e.gen, e.lost);
    } else {
      assert p in s.clients && s.clients[p] == tr.ss[k].clients[p];
      RefetchFinds(tr, k - 1, p);
      UsersEvolve(tr, k - 1, k);
      TakenForever(s.sh.users, tr.ss[k].sh.users, s.clients[p].pc.row.ext);
    }
  }

  lemma BeganFirst(tr: Trace, k: nat, p: nat)
    requires IsRun(tr) && Reaches(tr, k) && p in tr.ss[k].clients
    ensures k > 0
  {
  }

  lemma ExecToChecking(cfg: Config, sh: Shared, pc: Pc, now: int, gen: string, lost: bool)
    requires Exec(cfg, sh, pc, now, gen, lost).pc.Checking?
    ensures pc == Deleting(Exec(cfg, sh, pc, now, gen, lost).pc.id) && !Live(sh.users, pc.id)
    ensures Exec(cfg, sh, pc, now, gen, lost).shared == sh
  {
  }

  lemma NotLiveStays(t: Table, t': Table, id: string)
    requires Evolves(t, t') && !Live(t, id) && (id in t' ==> id in t)
    ensures !Live(t', id)
  {
    assert id in t ==> RowEvolves(t[id], t'[id]);
  }

  // Between its UPDATE and its EXISTS, a delete whose id was not generated since it began can
  // only be looking at a DELETED row or at nothing.
  lemma {:induction false} CheckingSeesDeleted(tr: Trace, i: nat, k: nat, p: nat)
    requires IsRun(tr) && Reaches(tr, k) && i < k && p in tr.ss[k].clients && tr.ss[k].clients[p].pc.Checking?
    requires tr.es[i].Begin? && tr.es[i].p == p
    requires tr.ss[k].clients[p].pc.id in tr.ss[k].sh.users ==> tr.ss[k].clients[p].pc.id in tr.ss[i].sh.users
    ensures !Live(tr.ss[k].sh.users, tr.ss[k].clients[p].pc.id)
  {
    assert StepAt(tr, k - 1);
    var s, e, id := tr.ss[k - 1], tr.es[k - 1], tr.ss[k].clients[p].pc.id;
    if e.Step? && e.p == p {
      ExecToChecking(tr.cfg, s.sh, s.clients[p].pc, s.now, e.gen, e.lost);
    } else {
      assert p in s.clients && s.clients[p].pc == Checking(id);
      assert i < k - 1;
      UsersEvolve(tr, i, k - 1);
      UsersEvolve(tr, k - 1, k);
      CheckingSeesDeleted(tr, i, k - 1, p);
      NotLiveStays(s.sh.users, tr.ss[k].sh.users, id);
    }
  }

  // ----- Commit points -----

  // Event k fixes the answer of call p.
  predicate CommitsAt(tr: Trace, k: nat, p: nat)
    requires |tr.ss| == |tr.es| + 1 && k < |tr.es|
  {
    !Decided(tr.ss[k], p) && Decided(tr.ss[k + 1], p) && Writes(tr.ss[k + 1].clients[p].call)
  }

  predicate IsCommit(tr: Trace, k: nat)
    requires |tr.ss| == |tr.es| + 1 && k < |tr.es|
  {
    var e := tr.es[k];
    (e.Begin? || e.Step?) && CommitsAt(tr, k, e.p)
  }

  datatype Commit = Commit(p: nat, call: Call, now: int, gen: string, resp: Response)

  function CommitOf(tr: Trace, k: nat): Commit
    requires |tr.ss| == |tr.es| + 1 && k < |tr.es| && IsCommit(tr, k)
  {
    var e := tr.es[k];
    var c := tr.ss[k + 1].clients[e.p];
    Commit(e.p, c.call, tr.ss[k].now, if e.Step? then e.gen else "", Decision(c.pc).value)
  }

  // Get-or-create, at each of its three statements: the SELECT that hits, the INSERT that wins and
  // the re-SELECT after a lost race each answer as the indivisible operation on the same table.
  lemma GetOrCreateStep(cfg: Config, sh: Shared, row: NewUser, pc: Pc, now: int, gen: string, lost: bool)
    requires pc == Lookup(row) || pc == Inserting(row) || pc == Refetch(row)
    requires row.id == "" && NewTo(sh, pc, gen) && (pc.Refetch? ==> Taken(sh.users, row.ext))
    ensures
      var x, o := Exec(cfg, sh, pc, now, gen, lost), GetOrCreate(sh.users, row, gen, now);
      if x.pc.Done? then x.shared.users == o.table && x.pc.resp == Profile(o.result) && o.result.Ok?
      else x.shared == sh && (x.pc == Inserting(row) || x.pc == Refetch(row))
  {
  }

  lemma UpdateStep(cfg: Config, sh: Shared, r: UpdateUserRequest, now: int, gen: string, lost: bool)
    requires ValidUpdate(cfg.parses, r)
    ensures
      var x := Exec(cfg, sh, Updating(r), now, gen, lost);
      Decision(x.pc).Some?
      && Atomic(x.shared.users, Decision(x.pc).value) == AtomicCall(cfg, sh.users, UpdateUser(r), now, gen)
  {
  }

  lemma DeleteStep(cfg: Config, sh: Shared, id: string, pc: Pc, now: int, gen: string, lost: bool)
    requires pc == Deleting(id) || (pc == Checking(id) && !Live(sh.users, id))
    ensures
      var x := Exec(cfg, sh, pc, now, gen, lost);
      if Decision(x.pc).Some?
      then Atomic(x.shared.users, Decision(x.pc).value) == AtomicCall(cfg, sh.users, DeleteUser(id), now, gen)
      else x == Effect(sh, Checking(id))
  {
  }

  // One statement of an undecided writing call: either it answers, as the specification does on
  // the same table, or it changes no user row.
  lemma ExecIsAtomic(cfg: Config, sh: Shared, call: Call, pc: Pc, now: int, gen: string, lost: bool)
    requires Writes(call) && Fits(cfg, call, pc) && Decision(pc).None? && NewTo(sh, pc, gen)
    requires pc.Refetch? ==> Taken(sh.users, pc.row.ext)
    requires pc.Checking? ==> !Live(sh.users, pc.id)
    ensures
      var x := Exec(cfg, sh, pc, now, gen, lost);
      if Decision(x.pc).Some?
      then Atomic(x.shared.users, Decision(x.pc).value) == AtomicCall(cfg, sh.users, call, now, gen)
      else x.shared.users == sh.users
  {
    match call
    case CreateUser(r) => GetOrCreateStep(cfg, sh, CreateRow(r), pc, now, gen, lost);
    case UpsertDriver(r) => GetOrCreateStep(cfg, sh, DriverRow(r), pc, now, gen, lost);
    case UpdateUser(r) => UpdateStep(cfg, sh, r, now, gen, lost);
    case DeleteUser(id) => DeleteStep(cfg, sh, id, pc, now, gen, lost);
  }

  lemma ExecReadsOnly(cfg: Config, sh: Shared, call: Call, pc: Pc, now: int, gen: string, lost: bool)
    requires !Writes(call) && Fits(cfg, call, pc)
    ensures Exec(cfg, sh, pc, now, gen, lost).shared.users == sh.users
  {
  }

  // Event k is an EXISTS that finds a live row, which the UPDATE before it did not see: the delete
  // reports success and deletes nothing.
  predicate HollowDelete(tr: Trace, k: nat)
    requires |tr.ss| == |tr.es| + 1 && k < |tr.es|
  {
    var s, e := tr.ss[k], tr.es[k];
    e.Step? && e.p in s.clients && s.clients[e.p].pc.Checking? && Live(s.sh.users, s.clients[e.p].pc.id)
  }

  // What a hollow delete looks like from outside.
  predicate Hollow(t: Table, c: Commit, t': Table) {
    c.call.DeleteUser? && c.resp == Removal(Ok(())) && Live(t, c.call.id) && t' == t
  }

  // c is the indivisible call on t.
  predicate Indivisible(cfg: Config, t: Table, c: Commit, t': Table) {
    Writes(c.call) && Atomic(t', c.resp) == AtomicCall(cfg, t, c.call, c.now, c.gen)
  }

  lemma HollowIsNoDelete(cfg: Config, t: Table, c: Commit, t': Table)
    requires Hollow(t, c, t')
    ensures !Indivisible(cfg, t, c, t')
  {
    assert MarkDeleted(t, c.call.id, c.now)[c.call.id].status == Deleted;
  }

  lemma ExecHollow(cfg: Config, sh: Shared, id: string, now: int, gen: string, lost: bool)
    requires Live(sh.users, id)
    ensures
      var x := Exec(cfg, sh, Checking(id), now, gen, lost);
      x.shared == sh && Decision(x.pc) == Some(Removal(Ok(())))
  {
  }

  // Each event of a run that fixes an answer is one indivisible call, answered as the specification
  // answers it, exactly when it is not a hollow delete; all others leave the user table alone.
  lemma CommitIsAtomic(tr: Trace, k: nat)
    requires IsRun(tr) && k < |tr.es|
    ensures IsCommit(tr, k) ==>
              (Indivisible(tr.cfg, tr.ss[k].sh.users, CommitOf(tr, k), tr.ss[k + 1].sh.users) <==> !HollowDelete(tr, k))
    ensures HollowDelete(tr, k) ==>
              IsCommit(tr, k) && Hollow(tr.ss[k].sh.users, CommitOf(tr, k), tr.ss[k + 1].sh.users)
    ensures !IsCommit(tr, k) ==> tr.ss[k + 1].sh.users == tr.ss[k].sh.users
  {
    assert StepAt(tr, k);
    var s, e := tr.ss[k], tr.es[k];
    if e.Step? {
      var pc, call := s.clients[e.p].pc, s.clients[e.p].call;
      ClientFits(tr, k, e.p);
      if HollowDelete(tr, k) {
        ExecHollow(tr.cfg, s.sh, pc.id, s.now, e.gen, e.lost);
        HollowIsNoDelete(tr.cfg, s.sh.users, CommitOf(tr, k), tr.ss[k + 1].sh.users);
      } else if !Writes(call) {
        ExecReadsOnly(tr.cfg, s.sh, call, pc, s.now, e.gen, e.lost);
      } else if Decision(pc).None? {
        if pc.Refetch? { RefetchFinds(tr, k, e.p); }
        ExecIsAtomic(tr.cfg, s.sh, call, pc, s.now, e.gen, e.lost);
      }
    }
  }

  // A hollow delete named an id that the database had yet to generate when the call began.
  lemma HollowNamesUnborn(tr: Trace, k: nat) returns (i: nat)
    requires IsRun(tr) && k < |tr.es| && HollowDelete(tr, k)
    ensures i < k && tr.es[i] == Begin(tr.es[k].p, DeleteUser(CommitId(tr, k)))
    ensures CommitId(tr, k) !in tr.ss[i].sh.users && CommitId(tr, k) in tr.ss[k].sh.users
  {
    var p := tr.es[k].p;
    i := BeganAt(tr, k, p);
    ClientFits(tr, k, p);
    if CommitId(tr, k) in tr.ss[i].sh.users {
      CheckingSeesDeleted(tr, i, k, p);
    }
  }

  function CommitId(tr: Trace, k: nat): string
    requires |tr.ss| == |tr.es| + 1 && k < |tr.es| && HollowDelete(tr, k)
  {
    tr.ss[k].clients[tr.es[k].p].pc.id
  }

  // ----- The sequential history -----

  // The commits of the first k events, in order.
  function History(tr: Trace, k: nat): seq<Commit>
    requires |tr.ss| == |tr.es| + 1 && k <= |tr.es|
  {
    if k == 0 then []
    else History(tr, k - 1) + if IsCommit(tr, k - 1) then [CommitOf(tr, k - 1)] else []
  }

  // The calls of a history run one after another from t, indivisibly: the table they leave,
  // provided each gives the answer the history records.
  function Replay(cfg: Config, t: Table, h: seq<Commit>): Option<Table> {
    if h == [] then Some(t)
    else
      var c := h[|h| - 1];
      match Replay(cfg, t, h[..|h| - 1])
      case None => None
      case Some(m) =>
        if Writes(c.call) && AtomicCall(cfg, m, c.call, c.now, c.gen).resp == c.resp
        then Some(AtomicCall(cfg, m, c.call, c.now, c.gen).table)
        else None
  }

  // The history explains the events so far: same answers, same table.
  ghost predicate Replays(tr: Trace, k: nat)
    requires Reaches(tr, k)
  {
    Replay(tr.cfg, tr.ss[0].sh.users, History(tr, k)) == Some(tr.ss[k].sh.users)
  }

  lemma HistoryStep(tr: Trace, k: nat)
    requires IsRun(tr) && k < |tr.es| && Replays(tr, k)
    ensures Replays(tr, k + 1) <==> !HollowDelete(tr, k)
  {
    CommitIsAtomic(tr, k);
    var h := History(tr, k + 1);
    if IsCommit(tr, k) {
      assert h[..|h| - 1] == History(tr, k);
    } else {
      assert h == History(tr, k);
    }
  }

  // Running the calls one after another explains a run, at every moment up to k, exactly when no
  // delete so far was hollow.
  lemma {:induction false} LinearizableExactly(tr: Trace, k: nat)
    requires IsRun(tr) && Reaches(tr, k)
    ensures (forall m | 0 <= m <= k :: Replays(tr, m)) <==> (forall j | 0 <= j < k :: !HollowDelete(tr, j))
  {
    if k > 0 {
      LinearizableExactly(tr, k - 1);
      if Replays(tr, k - 1) { HistoryStep(tr, k - 1); }
    } else {
      assert Replays(tr, 0);
    }
  }

  // One call after another, where a delete may also succeed without effect.
  ghost predicate Explains(cfg: Config, ts: seq<Table>, h: seq<Commit>) {
    && |ts| == |h| + 1
    && forall i | 0 <= i < |h| :: Indivisible(cfg, ts[i], h[i], ts[i + 1]) || Hollow(ts[i], h[i], ts[i + 1])
  }

  lemma ExplainsMore(cfg: Config, ts: seq<Table>, h: seq<Commit>, c: Commit, t: Table)
    requires Explains(cfg, ts, h)
    requires Indivisible(cfg, ts[|h|], c, t) || Hollow(ts[|h|], c, t)
    ensures Explains(cfg, ts + [t], h + [c])
  {
    var ts', h' := ts + [t], h + [c];
    forall i | 0 <= i < |h'| ensures Indivisible(cfg, ts'[i], h'[i], ts'[i + 1]) || Hollow(ts'[i], h'[i], ts'[i + 1]) {
      if i < |h| {
        assert ts'[i] == ts[i] && ts'[i + 1] == ts[i + 1] && h'[i] == h[i];
      }
    }
  }

  // Whatever ids the deletes name, every run is one call after another but for hollow deletes.
  lemma {:induction false} LinearizableButForHollow(tr: Trace, k: nat) returns (ts: seq<Table>)
    requires IsRun(tr) && Reaches(tr, k)
    ensures Explains(tr.cfg, ts, History(tr, k))
    ensures ts[0] == tr.ss[0].sh.users && ts[|ts| - 1] == tr.ss[k].sh.users
  {
    if k == 0 {
      ts := [tr.ss[0].sh.users];
    } else {
      ts := LinearizableButForHollow(tr, k - 1);
      var h := History(tr, k - 1);
      CommitIsAtomic(tr, k - 1);
      if IsCommit(tr, k - 1) {
        ExplainsMore(tr.cfg, ts, h, CommitOf(tr, k - 1), tr.ss[k].sh.users);
        ts := ts + [tr.ss[k].sh.users];
        assert History(tr, k) == h + [CommitOf(tr, k - 1)];
      } else {
        assert History(tr, k) == h;
      }
    }
  }

  // No id is generated while a delete that names it is under way.
  ghost predicate DeletesIssuedIds(tr: Trace)
    requires IsTrace(tr)
  {
    forall i, k | 0 <= i < k < |tr.es| && tr.es[i].Begin? && tr.es[i].call.DeleteUser? && ChecksAt(tr, k, tr.es[i].p) ::
      tr.es[i].call.id in tr.ss[k].sh.users ==> tr.es[i].call.id in tr.ss[i].sh.users
  }

  predicate ChecksAt(tr: Trace, k: nat, p: nat)
    requires |tr.ss| == |tr.es| + 1 && k < |tr.es|
  {
    tr.es[k].Step? && tr.es[k].p == p && p in tr.ss[k].clients && tr.ss[k].clients[p].pc.Checking?
  }

  // So every run whose deletes name issued ids is explained by a sequential one: same answers, same
  // final table.
  lemma Linearizable(tr: Trace, k: nat)
    requires IsRun(tr) && Reaches(tr, k) && DeletesIssuedIds(tr)
    ensures Replay(tr.cfg, tr.ss[0].sh.users, History(tr, k)) == Some(tr.ss[k].sh.users)
  {
    forall j | 0 <= j < k ensures !HollowDelete(tr, j) {
      if HollowDelete(tr, j) {
        var i := HollowNamesUnborn(tr, j);
        assert ChecksAt(tr, j, tr.es[i].p);
      }
    }
    LinearizableExactly(tr, k);
    assert Replays(tr, k);
  }

  // An answered call has one place in the history, inside its own interval, with the answer it gave.
  lemma {:induction false} CommitPoint(tr: Trace, k: nat, p: nat) returns (i: nat, j: nat)
    requires IsRun(tr) && Reaches(tr, k) && Decided(tr.ss[k], p) && Writes(tr.ss[k].clients[p].call)
    ensures i <= j < k
    ensures tr.es[i] == Begin(p, tr.ss[k].clients[p].call) && p !in tr.ss[i].clients
    ensures IsCommit(tr, j) && tr.es[j].p == p
    ensures Some(CommitOf(tr, j).resp) == Decision(tr.ss[k].clients[p].pc)
    ensures forall m | 0 <= m < k && IsCommit(tr, m) && tr.es[m].p == p :: m == j
    ensures |History(tr, j)| < |History(tr, k)| && History(tr, k)[|History(tr, j)|] == CommitOf(tr, j)
  {
    i := BeganAt(tr, k, p);
    assert StepAt(tr, k - 1);
    if Decided(tr.ss[k - 1], p) {
      var _, j' := CommitPoint(tr, k - 1, p);
      j := j';
      assert p in tr.ss[j + 1].clients;
      assert i <= j by {
        if j < i { ClientsPersist(tr, j + 1, i, p); }
      }
    } else {
      j := k - 1;
      forall m | 0 <= m < k && IsCommit(tr, m) && tr.es[m].p == p ensures m == j {
        if m < j { StaysDecided(tr, m + 1, j, p); }
      }
    }
  }

  lemma {:induction false} StaysDecided(tr: Trace, i: nat, k: nat, p: nat)
    requires IsTrace(tr) && Reaches(tr, k) && i <= k && Decided(tr.ss[i], p)
    ensures Decided(tr.ss[k], p) && Decision(tr.ss[k].clients[p].pc) == Decision(tr.ss[i].clients[p].pc)
  {
    if i < k {
      StaysDecided(tr, i, k - 1, p);
      assert StepAt(tr, k - 1);
    }
  }

  // The history respects real time: a call answered before another begins precedes it.
  lemma RealTimeOrder(tr: Trace, m: nat, k: nat, p: nat, q: nat) returns (a: nat, b: nat)
    requires IsRun(tr) && Reaches(tr, k) && m <= k
    requires Decided(tr.ss[m], p) && Writes(tr.ss[m].clients[p].call)
    requires q !in tr.ss[m].clients && Decided(tr.ss[k], q) && Writes(tr.ss[k].clients[q].call)
    ensures a < b < |History(tr, k)| && History(tr, k)[a].p == p && History(tr, k)[b].p == q
  {
    StaysDecided(tr, m, k, p);
    ClientsPersist(tr, m, k, p);
    var _, jp := CommitPoint(tr, m, p);
    var _, jk := CommitPoint(tr, k, p);
    assert jk == jp;
    var i, jq := CommitPoint(tr, k, q);
    assert i >= m by {
      if i < m { assert StepAt(tr, i); ClientsPersist(tr, i + 1, m, q); }
    }
    HistoryGrows(tr, jp, jq);
    a, b := |History(tr, jp)|, |History(tr, jq)|;
  }

  lemma {:induction false} HistoryGrows(tr: Trace, i: nat, k: nat)
    requires IsTrace(tr) && i < k < |tr.ss| && IsCommit(tr, i)
    ensures |History(tr, i)| < |History(tr, k)|
  {
    if i < k - 1 { HistoryGrows(tr, i, k - 1); }
  }

  // ----- What callers of get-or-create see -----

  predicate GetsOrCreates(call: Call) {
    call.CreateUser? || call.UpsertDriver?
  }

  function ExtOf(call: Call): string
    requires GetsOrCreates(call)
  {
    if call.CreateUser? then call.create.ext else call.upsert.ext
  }

  // u is what the one row of this identity was at some moment up to now.
  ghost predicate RowOfIdentity(t: Table, ext: string, u: User) {
    Taken(t, ext) && u.id == Holder(t, ext) && RowEvolves(u, t[u.id])
  }

  lemma GetOrCreateReturnsRow(t: Table, u: NewUser, gen: string, now: int)
    requires GetOrCreate(t, u, gen, now).result.Ok?
    ensures RowOfIdentity(GetOrCreate(t, u, gen, now).table, u.ext, GetOrCreate(t, u, gen, now).result.value)
  {
    var o := GetOrCreate(t, u, gen, now);
    assert o.table[o.result.value.id].ext == u.ext;
  }

  lemma RowOfIdentityStays(t: Table, t': Table, ext: string, u: User)
    requires RowOfIdentity(t, ext, u) && Evolves(t, t')
    ensures RowOfIdentity(t', ext, u)
  {
    TakenForever(t, t', ext);
    assert RowEvolves(t[u.id], t'[u.id]);
  }

  function RowFor(call: Call): NewUser
    requires GetsOrCreates(call)
  {
    if call.CreateUser? then CreateRow(call.create) else DriverRow(call.upsert)
  }

  // What an answer to get-or-create may be.
  ghost predicate GoodAnswer(t: Table, ext: string, resp: Response) {
    resp == Profile(Err(Validation)) || (resp.Profile? && resp.user.Ok? && RowOfIdentity(t, ext, resp.user.value))
  }

  lemma GetOrCreateStatementAnswers(cfg: Config, sh: Shared, call: Call, pc: Pc, now: int, gen: string, lost: bool)
    requires GetsOrCreates(call) && Fits(cfg, call, pc) && Decision(pc).None? && NewTo(sh, pc, gen)
    requires pc.Refetch? ==> Taken(sh.users, pc.row.ext)
    ensures
      var x := Exec(cfg, sh, pc, now, gen, lost);
      Decision(x.pc).Some? ==> GoodAnswer(x.shared.users, ExtOf(call), Decision(x.pc).value)
  {
    GetOrCreateStep(cfg, sh, RowFor(call), pc, now, gen, lost);
    var x := Exec(cfg, sh, pc, now, gen, lost);
    if x.pc.Done? {
      GetOrCreateReturnsRow(sh.users, RowFor(call), gen, now);
    }
  }

  // A get-or-create call fails only validation; otherwise it returns the one row of its external
  // id, which never goes away.
  lemma {:induction false} GetOrCreateAnswers(tr: Trace, k: nat, p: nat)
    requires IsRun(tr) && Reaches(tr, k) && Decided(tr.ss[k], p) && GetsOrCreates(tr.ss[k].clients[p].call)
    ensures GoodAnswer(tr.ss[k].sh.users, ExtOf(tr.ss[k].clients[p].call), Decision(tr.ss[k].clients[p].pc).value)
  {
    BeganFirst(tr, k, p);
    assert StepAt(tr, k - 1);
    var s, e := tr.ss[k - 1], tr.es[k - 1];
    if Decided(s, p) {
      GetOrCreateAnswers(tr, k - 1, p);
      UsersEvolve(tr, k - 1, k);
      StaysDecided(tr, k - 1, k, p);
      ClientsPersist(tr, k - 1, k, p);
      var resp := Decision(s.clients[p].pc).value;
      if resp != Profile(Err(Validation)) {
        RowOfIdentityStays(s.sh.users, tr.ss[k].sh.users, ExtOf(s.clients[p].call), resp.user.value);
      }
    } else if p in s.clients {
      ClientFits(tr, k - 1, p);
      if s.clients[p].pc.Refetch? { RefetchFinds(tr, k - 1, p); }
      GetOrCreateStatementAnswers(tr.cfg, s.sh, s.clients[p].call, s.clients[p].pc, s.now, e.gen, e.lost);
    }
  }

  // All calls for one external id, at any two moments of a run, name the same profile.
  lemma OneProfilePerIdentity(tr: Trace, k: nat, p: nat, q: nat, u: User, v: User)
    requires IsRun(tr) && Reaches(tr, k) && Decided(tr.ss[k], p) && Decided(tr.ss[k], q)
    requires GetsOrCreates(tr.ss[k].clients[p].call) && GetsOrCreates(tr.ss[k].clients[q].call)
    requires Decision(tr.ss[k].clients[p].pc) == Some(Profile(Ok(u)))
    requires Decision(tr.ss[k].clients[q].pc) == Some(Profile(Ok(v)))
    ensures u.id == v.id <==> ExtOf(tr.ss[k].clients[p].call) == ExtOf(tr.ss[k].clients[q].call)
  {
    GetOrCreateAnswers(tr, k, p);
    GetOrCreateAnswers(tr, k, q);
  }
}
