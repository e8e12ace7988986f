/** Soft deletion: when its success can be believed, and that DELETED is final. */
module Deletion {
  import opened Wrappers
  import opened Requests
  import opened Users
  import opened Service
  import opened Traces
  import opened Linearizability
  import opened Pagination

  predicate DeleteSucceeded(s: State, p: nat) {
    p in s.clients && Decision(s.clients[p].pc) == Some(Removal(Ok(())))
  }

  predicate IsDeleted(t: Table, id: string) {
    id in t && t[id].status == Deleted
  }

  // In this trace, once the delete of p is answered with success, the row is DELETED.
  ghost predicate Truthful(tr: Trace, p: nat, id: string)
    requires IsTrace(tr)
  {
    forall k | 0 <= k < |tr.ss| && DeleteSucceeded(tr.ss[k], p) :: IsDeleted(tr.ss[k].sh.users, id)
  }

  // How far a delete of an existing id has come.
  ghost predicate DeleteStage(pc: Pc, t: Table, id: string) {
    || pc == Deleting(id)
    || (pc == Checking(id) && IsDeleted(t, id))
    || (Decision(pc) == Some(Removal(Ok(()))) && IsDeleted(t, id))
  }

  lemma ExecDeleteStage(cfg: Config, sh: Shared, pc: Pc, now: int, gen: string, lost: bool, id: string)
    requires DeleteStage(pc, sh.users, id) && id in sh.users
    ensures
      var x := Exec(cfg, sh, pc, now, gen, lost);
      DeleteStage(x.pc, x.shared.users, id)
  {
    if pc == Deleting(id) && Live(sh.users, id) {
      assert IsDeleted(MarkDeleted(sh.users, id, now), id);
    }
  }

  // A delete that starts when its id exists: nothing else can be under it at its EXISTS.
  lemma {:induction false} DeleteOfKnownId(tr: Trace, k: nat, p: nat, id: string)
    requires Reaches(tr, k) && p in tr.ss[0].clients && tr.ss[0].clients[p].pc == Deleting(id)
    requires id in tr.ss[0].sh.users
    ensures p in tr.ss[k].clients && DeleteStage(tr.ss[k].clients[p].pc, tr.ss[k].sh.users, id)
  {
    if k > 0 {
      DeleteOfKnownId(tr, k - 1, p, id);
      assert StepAt(tr, k - 1);
      UsersEvolve(tr, 0, k - 1);
      UsersEvolve(tr, k - 1, k);
      var s, e := tr.ss[k - 1], tr.es[k - 1];
      if e.Step? && e.p == p {
        ExecDeleteStage(tr.cfg, s.sh, s.clients[p].pc, s.now, e.gen, e.lost, id);
      } else {
        assert tr.ss[k].clients[p] == s.clients[p];
      }
    }
  }

  // An id nobody issued yet can still appear: UPDATE finds no row, another call inserts it, EXISTS
  // finds it, and the delete reports success on a row that stays ACTIVE.
  lemma DeleteOfUnknownIdCanLie(cfg: Config, s: State, p: nat, id: string) returns (tr: Trace)
    requires p in s.clients && s.clients[p].pc == Deleting(id) && id !in s.sh.users
    ensures IsTrace(tr) && tr.cfg == cfg && tr.ss[0] == s && !Truthful(tr, p, id)
  {
    var q := NewNumber(s.clients.Keys);
    var ext := NewIdentity(s.sh.users);
    var s1 := Moved(s, p, s.sh, Checking(id));
    tr := Then(Trace(cfg, [s], []), Step(p, "", false));
    assert tr.ss[1] == s1;
    tr := DriverAppears(tr, q, ext, id);
    var s4 := tr.ss[4];
    ThenIsTrace(tr, Step(p, "", false));
    tr := Then(tr, Step(p, "", false));
    ExistsFinds(cfg, s4, p, id);
    assert tr.ss[5] == Apply(cfg, s4, Step(p, "", false));
  }

  lemma ExistsFinds(cfg: Config, s: State, p: nat, id: string)
    requires p in s.clients && s.clients[p].pc == Checking(id) && Live(s.sh.users, id)
    ensures
      var t := Apply(cfg, s, Step(p, "", false));
      DeleteSucceeded(t, p) && !IsDeleted(t.sh.users, id)
  {
    ExecHollow(cfg, s.sh, id, s.now, "", false);
  }

  // A driver registers and happens to be given this id.
  lemma DriverAppears(tr0: Trace, q: nat, ext: string, id: string) returns (tr: Trace)
    requires IsTrace(tr0)
    requires
      var s := tr0.ss[|tr0.es|];
      q !in s.clients && !Taken(s.sh.users, ext) && !Blank(ext) && id !in s.sh.users
    ensures IsTrace(tr) && tr.cfg == tr0.cfg && |tr.es| == |tr0.es| + 3 && tr.ss[..|tr0.ss|] == tr0.ss
    ensures
      var s, s' := tr0.ss[|tr0.es|], tr.ss[|tr.es|];
      && s'.clients.Keys == s.clients.Keys + {q} && (forall p <- s.clients :: s'.clients[p] == s.clients[p])
      && id in s'.sh.users && s'.sh.users[id].status == Active
  {
    var req := UpsertDriverRequest("+12345678", ext, "");
    DriverSteps(tr0.cfg, tr0.ss[|tr0.es|], q, req, id);
    ThenIsTrace(tr0, Begin(q, UpsertDriver(req)));
    tr := Then(tr0, Begin(q, UpsertDriver(req)));
    ThenIsTrace(tr, Step(q, "", false));
    tr := Then(tr, Step(q, "", false));
    ThenIsTrace(tr, Step(q, id, false));
    tr := Then(tr, Step(q, id, false));
  }

  lemma DriverSteps(cfg: Config, s: State, q: nat, req: UpsertDriverRequest, id: string)
    requires req.phone == "+12345678" && req.name == "" && !Blank(req.ext)
    requires q !in s.clients && !Taken(s.sh.users, req.ext) && id !in s.sh.users
    ensures
      var e1, e2, e3 := Begin(q, UpsertDriver(req)), Step(q, "", false), Step(q, id, false);
      var s1 := Apply(cfg, s, e1);
      var s2 := Apply(cfg, s1, e2);
      var s3 := Apply(cfg, s2, e3);
      && Enabled(s, e1) && Enabled(s1, e2) && Enabled(s2, e3)
      && s3.clients.Keys == s.clients.Keys + {q} && (forall p <- s.clients :: s3.clients[p] == s.clients[p])
      && id in s3.sh.users && s3.sh.users[id].status == Active
  {
    assert ValidUpsert(req) by { assert req.phone[0] == '+' && req.phone[0] in req.phone; }
    var row := DriverRow(req);
    var s1 := s.(clients := s.clients[q := Client(UpsertDriver(req), Lookup(row))]);
    assert Apply(cfg, s, Begin(q, UpsertDriver(req))) == s1;
    var s2 := Moved(s1, q, s.sh, Inserting(row));
    assert Apply(cfg, s1, Step(q, "", false)) == s2;
    DriverInserts(cfg, s2, q, row, id);
  }

  lemma DriverInserts(cfg: Config, s: State, q: nat, row: NewUser, id: string)
    requires q in s.clients && s.clients[q].pc == Inserting(row) && row.id == "" && row.status == Active
    requires id !in s.sh.users && !Taken(s.sh.users, row.ext)
    ensures
      var t := Apply(cfg, s, Step(q, id, false));
      && t.clients.Keys == s.clients.Keys && (forall p <- s.clients :: p != q ==> t.clients[p] == s.clients[p])
      && id in t.sh.users && t.sh.users[id].status == Active
  {
    InsertColumns(s.sh.users, row, id, s.now);
  }

  // Success can be believed in every continuation exactly when the id exists as the call starts.
  lemma DeleteTruthfulExactly(cfg: Config, s: State, p: nat, id: string)
    requires p in s.clients && s.clients[p].pc == Deleting(id)
    ensures (forall tr: Trace | IsTrace(tr) && tr.cfg == cfg && tr.ss[0] == s :: Truthful(tr, p, id))
            <==> id in s.sh.users
  {
    if id in s.sh.users {
      forall tr: Trace | IsTrace(tr) && tr.cfg == cfg && tr.ss[0] == s ensures Truthful(tr, p, id) {
        forall k | 0 <= k < |tr.ss| && DeleteSucceeded(tr.ss[k], p)
          ensures IsDeleted(tr.ss[k].sh.users, id)
        {
          DeleteOfKnownId(tr, k, p, id);
        }
      }
    } else {
      var tr := DeleteOfUnknownIdCanLie(cfg, s, p, id);
    }
  }

  // A DELETED row never changes again; from then on every update of it conflicts, a delete of it
  // is a successful no-op, get-or-create for its identity returns it instead of a second row, and
  // no listing shows or counts it.
  lemma DeletedIsFinal(tr: Trace, i: nat, k: nat, id: string, u: NewUser, p: Patch, expected: int,
                       now: int, gen: string)
    requires Reaches(tr, k) && i <= k && IsDeleted(tr.ss[i].sh.users, id)
    ensures
      var row, t := tr.ss[i].sh.users[id], tr.ss[k].sh.users;
      && id in t && t[id] == row
      && Update(t, id, p, expected, now) == Outcome(t, Err(Conflict))
      && Remove(t, id, now) == Outcome(t, Ok(()))
      && (u.ext == row.ext ==> GetOrCreate(t, u, gen, now) == Outcome(t, Ok(row)))
      && (forall filter :: id !in ListRanks(t, filter))
  {
    UsersEvolve(tr, i, k);
    var t := tr.ss[k].sh.users;
    assert RowEvolves(tr.ss[i].sh.users[id], t[id]);
  }

  // ----- Names nobody uses yet -----

  lemma NewNumber(used: set<nat>) returns (q: nat)
    ensures forall p <- used :: p < q
  {
    if used == {} {
      q := 0;
    } else {
      var p :| p in used;
      q := NewNumber(used - {p});
      if q <= p { q := p + 1; }
      assert used == (used - {p}) + {p};
    }
  }

  lemma LongerThanAll(texts: set<string>) returns (n: nat)
    ensures n > 0 && forall x <- texts :: |x| < n
  {
    if texts == {} {
      n := 1;
    } else {
      var x :| x in texts;
      n := LongerThanAll(texts - {x});
      if n <= |x| { n := |x| + 1; }
      assert texts == (texts - {x}) + {x};
    }
  }

  lemma NewIdentity(t: Table) returns (ext: string)
    ensures !Taken(t, ext) && !Blank(ext)
  {
    var n := LongerThanAll(set i <- t :: t[i].ext);
    ext := seq(n, _ => 'x');
    assert ext[0] == 'x' && ext[0] in ext;
  }
}
