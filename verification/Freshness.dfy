/** When an invalidation really keeps old profiles out of sight. */
module Freshness {
  import opened Wrappers
  import opened Users
  import opened Service
  import opened Traces
  import opened Linearizability
  import opened Deletion
  import opened Staleness

  // The moment after a DEL that reached Redis: the row is at version v or later, no entry.
  predicate Invalidated(s: State, id: string, v: int) {
    id in s.sh.users && s.sh.users[id].version >= v && CacheKey(id) !in s.sh.cache
  }

  ghost predicate HoldsFresh(pc: Pc, id: string, v: int) {
    pc.CacheSet? && pc.id == id ==> pc.user.version >= v
  }

  // No reader still holds an older row it is about to SET.
  ghost predicate NoStaleReader(s: State, id: string, v: int) {
    forall p <- s.clients :: HoldsFresh(s.clients[p].pc, id, v)
  }

  ghost predicate EntryFresh(sh: Shared, id: string, v: int) {
    CacheKey(id) in sh.cache ==> sh.cache[CacheKey(id)].user.version >= v
  }

  // A read of id that has not gone wrong: still on its way, or answered with version v or later.
  predicate ReadFresh(c: Client, id: string, v: int) {
    c.call == GetUserByID(id) ==>
      match c.pc
      case CacheGet(i) => i == id
      case Selecting(i) => i == id
      case CacheSet(i, u) => i == id
      case Done(Profile(Ok(u))) => u.version >= v
      case _ => false
  }

  // Entry and every read begun since moment i are at version v or later.
  ghost predicate FreshSince(tr: Trace, i: nat, k: nat, id: string, v: int)
    requires i <= k < |tr.ss|
  {
    && EntryFresh(tr.ss[k].sh, id, v)
    && forall p <- tr.ss[k].clients | p !in tr.ss[i].clients :: ReadFresh(tr.ss[k].clients[p], id, v)
  }

  lemma ExecFresh(cfg: Config, sh: Shared, pc: Pc, now: int, gen: string, lost: bool, id: string, v: int)
    requires id in sh.users && sh.users[id].version >= v && EntryFresh(sh, id, v) && HoldsFresh(pc, id, v)
    ensures
      var x := Exec(cfg, sh, pc, now, gen, lost);
      EntryFresh(x.shared, id, v) && HoldsFresh(x.pc, id, v)
  {
    if pc.CacheSet? && CacheKey(pc.id) == CacheKey(id) { CacheKeyInjective(pc.id, id); }
  }

  lemma ExecReadFresh(cfg: Config, sh: Shared, c: Client, now: int, gen: string, lost: bool, id: string, v: int)
    requires id in sh.users && sh.users[id].version >= v && EntryFresh(sh, id, v) && HoldsFresh(c.pc, id, v)
    requires ReadFresh(c, id, v)
    ensures ReadFresh(c.(pc := Exec(cfg, sh, c.pc, now, gen, lost).pc), id, v)
  {
  }

  lemma {:induction false} EntryStaysFresh(tr: Trace, i: nat, k: nat, id: string, v: int)
    requires Reaches(tr, k) && i <= k
    requires Invalidated(tr.ss[i], id, v) && NoStaleReader(tr.ss[i], id, v)
    ensures EntryFresh(tr.ss[k].sh, id, v) && NoStaleReader(tr.ss[k], id, v)
    ensures id in tr.ss[k].sh.users && tr.ss[k].sh.users[id].version >= v
  {
    UsersEvolve(tr, i, k);
    if i < k {
      EntryStaysFresh(tr, i, k - 1, id, v);
      assert StepAt(tr, k - 1);
      var s, e, t := tr.ss[k - 1], tr.es[k - 1], tr.ss[k];
      if e.Step? {
        ExecFresh(tr.cfg, s.sh, s.clients[e.p].pc, s.now, e.gen, e.lost, id, v);
      }
      forall p | p in t.clients ensures HoldsFresh(t.clients[p].pc, id, v) {
        assert p in s.clients ==> HoldsFresh(s.clients[p].pc, id, v);
      }
    }
  }

  lemma {:induction false} ReadStaysFresh(tr: Trace, i: nat, k: nat, id: string, v: int, p: nat)
    requires Reaches(tr, k) && i <= k
    requires Invalidated(tr.ss[i], id, v) && NoStaleReader(tr.ss[i], id, v)
    requires p in tr.ss[k].clients && p !in tr.ss[i].clients
    ensures ReadFresh(tr.ss[k].clients[p], id, v)
  {
    assert StepAt(tr, k - 1);
    var s, e := tr.ss[k - 1], tr.es[k - 1];
    if p in s.clients {
      ReadStaysFresh(tr, i, k - 1, id, v, p);
      EntryStaysFresh(tr, i, k - 1, id, v);
      if e.Step? && e.p == p {
        ExecReadFresh(tr.cfg, s.sh, s.clients[p], s.now, e.gen, e.lost, id, v);
      }
    }
  }

  // Invalidated while nobody holds an older row, the profile stays fresh.
  lemma StaysFresh(tr: Trace, i: nat, k: nat, id: string, v: int)
    requires Reaches(tr, k) && i <= k
    requires Invalidated(tr.ss[i], id, v) && NoStaleReader(tr.ss[i], id, v)
    ensures FreshSince(tr, i, k, id, v)
  {
    EntryStaysFresh(tr, i, k, id, v);
    forall p | p in tr.ss[k].clients && p !in tr.ss[i].clients ensures ReadFresh(tr.ss[k].clients[p], id, v) {
      ReadStaysFresh(tr, i, k, id, v, p);
    }
  }

  // A stale reader can undo the invalidation: its SET puts the old row back, and a read begun
  // afterwards returns it.
  lemma StaleReaderUndoes(cfg: Config, s: State, id: string, v: int, p: nat) returns (tr: Trace)
    requires cfg.cacheOn && p in s.clients
    requires s.clients[p].pc.CacheSet? && s.clients[p].pc.id == id && s.clients[p].pc.user.version < v
    ensures IsTrace(tr) && tr.cfg == cfg && tr.ss[0] == s && |tr.ss| == 4
    ensures !FreshSince(tr, 0, 1, id, v) && !FreshSince(tr, 0, 3, id, v)
  {
    var q := NewNumber(s.clients.Keys);
    var es := [Step(p, "", false), Begin(q, GetUserByID(id)), Step(q, "", false)];
    var s1 := Apply(cfg, s, es[0]);
    var s2 := Apply(cfg, s1, es[1]);
    var s3 := Apply(cfg, s2, es[2]);
    tr := Trace(cfg, [s, s1, s2, s3], es);
    assert forall k | 0 <= k < |es| :: StepAt(tr, k);
    assert s3.clients[q] == Client(GetUserByID(id), Done(Profile(Ok(s.clients[p].pc.user))));
    assert !EntryFresh(tr.ss[1].sh, id, v);
    assert q in tr.ss[3].clients && q !in tr.ss[0].clients && !ReadFresh(tr.ss[3].clients[q], id, v);
  }

  // After an invalidation, every continuation stays fresh exactly when no reader in flight holds
  // an older row.
  lemma FreshExactly(cfg: Config, s: State, id: string, v: int)
    requires cfg.cacheOn && Invalidated(s, id, v)
    ensures (forall tr: Trace, k: nat | IsTrace(tr) && tr.cfg == cfg && tr.ss[0] == s && k < |tr.ss| ::
               FreshSince(tr, 0, k, id, v))
            <==> NoStaleReader(s, id, v)
  {
    if NoStaleReader(s, id, v) {
      forall tr: Trace, k: nat | IsTrace(tr) && tr.cfg == cfg && tr.ss[0] == s && k < |tr.ss|
        ensures FreshSince(tr, 0, k, id, v)
      {
        StaysFresh(tr, 0, k, id, v);
      }
    } else {
      var p :| p in s.clients && s.clients[p].pc.CacheSet? && s.clients[p].pc.id == id
               && s.clients[p].pc.user.version < v;
      var tr := StaleReaderUndoes(cfg, s, id, v, p);
      assert !FreshSince(tr, 0, 3, id, v);
    }
  }

  // ----- The invalidation of UpdateUser and DeleteUser -----

  // A writer about to DEL has already changed the row, which only grows newer.
  predicate Written(pc: Pc, t: Table) {
    pc.Invalidate? ==>
      && pc.id in t
      && (pc.resp.Profile? && pc.resp.user.Ok? ==>
            pc.resp.user.value.id == pc.id && pc.resp.user.value.version <= t[pc.id].version)
  }

  lemma ExecWritten(cfg: Config, sh: Shared, pc: Pc, now: int, gen: string, lost: bool)
    ensures
      var x := Exec(cfg, sh, pc, now, gen, lost);
      !pc.Invalidate? ==> Written(x.pc, x.shared.users)
  {
  }

  lemma WrittenStays(pc: Pc, t: Table, t': Table)
    requires Written(pc, t) && Evolves(t, t')
    ensures Written(pc, t')
  {
    assert pc.Invalidate? ==> RowEvolves(t[pc.id], t'[pc.id]);
  }

  lemma {:induction false} WriterHasWritten(tr: Trace, k: nat, p: nat)
    requires IsRun(tr) && Reaches(tr, k) && p in tr.ss[k].clients
    ensures Written(tr.ss[k].clients[p].pc, tr.ss[k].sh.users)
  {
    BeganFirst(tr, k, p);
    assert StepAt(tr, k - 1);
    var s, e := tr.ss[k - 1], tr.es[k - 1];
    if e.Step? && e.p == p {
      ExecWritten(tr.cfg, s.sh, s.clients[p].pc, s.now, e.gen, e.lost);
    } else if p in s.clients {
      WriterHasWritten(tr, k - 1, p);
      UsersEvolve(tr, k - 1, k);
      WrittenStays(s.clients[p].pc, s.sh.users, tr.ss[k].sh.users);
    }
  }

  // UpdateUser committed u and its DEL got through while nobody held an older row: from then on
  // the entry and every later read show version u.version or newer.
  lemma FreshAfterUpdate(tr: Trace, d: nat, k: nat, p: nat, u: User)
    requires IsRun(tr) && d < k < |tr.ss|
    requires tr.es[d].Step? && tr.es[d].p == p && !tr.es[d].lost && p in tr.ss[d].clients
    requires tr.ss[d].clients[p].pc.Invalidate? && tr.ss[d].clients[p].pc.resp == Profile(Ok(u))
    requires NoStaleReader(tr.ss[d], u.id, u.version)
    ensures FreshSince(tr, d + 1, k, u.id, u.version)
  {
    assert StepAt(tr, d);
    WriterHasWritten(tr, d, p);
    assert Invalidated(tr.ss[d + 1], u.id, u.version);
    StaysFresh(tr, d + 1, k, u.id, u.version);
  }

  // The DEL of a DeleteUser: from then on the entry and every later read show the version the row
  // had as the DEL arrived, or newer.
  lemma FreshAfterDelete(tr: Trace, d: nat, k: nat, p: nat, id: string)
    requires IsRun(tr) && d < k < |tr.ss|
    requires tr.es[d].Step? && tr.es[d].p == p && !tr.es[d].lost && p in tr.ss[d].clients
    requires tr.ss[d].clients[p].pc == Invalidate(id, Removal(Ok(())))
    ensures id in tr.ss[d].sh.users
    ensures NoStaleReader(tr.ss[d], id, tr.ss[d].sh.users[id].version) ==>
              FreshSince(tr, d + 1, k, id, tr.ss[d].sh.users[id].version)
  {
    assert StepAt(tr, d);
    WriterHasWritten(tr, d, p);
    var v := tr.ss[d].sh.users[id].version;
    if NoStaleReader(tr.ss[d], id, v) {
      assert Invalidated(tr.ss[d + 1], id, v);
      StaysFresh(tr, d + 1, k, id, v);
    }
  }

  lemma TimelyEnough(tr: Trace) returns (d: nat)
    requires IsTrace(tr)
    ensures Timely(tr, d)
  {
    UsersEvolve(tr, 0, |tr.es|);
    d := tr.ss[|tr.es|].now - tr.ss[0].now;
    forall i, j, p | 0 <= i < j < |tr.es| && StepOf(tr, i, p) && StepOf(tr, j, p)
                     && tr.ss[i].clients[p].pc.Selecting? && tr.ss[j].clients[p].pc.CacheSet?
      ensures tr.ss[j].now <= tr.ss[i].now + d
    {
      UsersEvolve(tr, 0, i);
      UsersEvolve(tr, j, |tr.es|);
    }
  }

  // So once the row is DELETED and nobody held an older one at the DEL, a read begun afterwards
  // answers the DELETED row itself.
  lemma DeletedIsRead(tr: Trace, d: nat, k: nat, p: nat, q: nat, id: string, u: User)
    requires IsRun(tr) && d < k < |tr.es|
    requires tr.es[d].Step? && tr.es[d].p == p && !tr.es[d].lost && p in tr.ss[d].clients
    requires tr.ss[d].clients[p].pc == Invalidate(id, Removal(Ok(())))
    requires IsDeleted(tr.ss[d].sh.users, id) && NoStaleReader(tr.ss[d], id, tr.ss[d].sh.users[id].version)
    requires AnswersAt(tr, k, q, Profile(Ok(u))) && tr.ss[k].clients[q].call == GetUserByID(id)
    requires q !in tr.ss[d + 1].clients
    ensures u == tr.ss[d].sh.users[id]
  {
    var row := tr.ss[d].sh.users[id];
    FreshAfterDelete(tr, d, k + 1, p, id);
    ClientsPersist(tr, k, k + 1, q);
    assert ReadFresh(tr.ss[k + 1].clients[q], id, row.version);
    var late := TimelyEnough(tr);
    var i := BoundedStaleness(tr, late, k, q, id, u);
    if i <= d { UsersEvolve(tr, i, d); } else { UsersEvolve(tr, d, i); }
  }
}
