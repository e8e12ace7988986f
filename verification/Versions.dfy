/** Optimistic locking over whole traces: no lost update, one winner per version, no gaps. */
module Versions {
  import opened Wrappers
  import opened Requests
  import opened Users
  import opened Service
  import opened Traces
  import opened Linearizability

  // Event k is an UPDATE of this row that its caller was told succeeded.
  predicate Updates(tr: Trace, k: nat, id: string)
    requires |tr.ss| == |tr.es| + 1 && k < |tr.es|
  {
    var s, e := tr.ss[k], tr.es[k];
    && e.Step? && e.p in s.clients && s.clients[e.p].pc.Updating? && s.clients[e.p].pc.update.id == id
    && Succeeded(tr.ss[k + 1], e.p)
  }

  predicate Succeeded(s: State, p: nat) {
    p in s.clients && match Decision(s.clients[p].pc)
      case Some(Profile(r)) => r.Ok?
      case _ => false
  }

  // The patches of exactly the successful updates of a row among the events i .. k-1, in order.
  function Patches(tr: Trace, id: string, i: nat, k: nat): seq<Patch>
    requires |tr.ss| == |tr.es| + 1 && i <= k <= |tr.es|
  {
    if i == k then []
    else Patches(tr, id, i, k - 1)
         + if Updates(tr, k - 1, id) then [tr.ss[k - 1].clients[tr.es[k - 1].p].pc.update.patch] else []
  }

  // The values a column of the patches asks for, in order.
  function Names(ps: seq<Patch>): seq<string> {
    seq(|ps|, k requires 0 <= k < |ps| => ps[k].name)
  }

  function Phones(ps: seq<Patch>): seq<string> {
    seq(|ps|, k requires 0 <= k < |ps| => ps[k].phone)
  }

  function Emails(ps: seq<Patch>): seq<string> {
    seq(|ps|, k requires 0 <= k < |ps| => ps[k].email)
  }

  // value is the last of these texts that is not empty, or the first value if all are.
  predicate LastWritten(value: string, first: string, texts: seq<string>) {
    || (value == first && forall k | 0 <= k < |texts| :: texts[k] == "")
    || (exists k | 0 <= k < |texts| ::
          value == texts[k] != "" && forall m | k < m < |texts| :: texts[m] == "")
  }

  lemma LastWrittenNext(value: string, first: string, texts: seq<string>, text: string)
    requires LastWritten(value, first, texts)
    ensures LastWritten(if text != "" then text else value, first, texts + [text])
  {
    var more := texts + [text];
    if text != "" {
      assert more[|texts|] == text;
    } else if k :| 0 <= k < |texts| && value == texts[k] != "" && forall m | k < m < |texts| :: texts[m] == "" {
      assert more[k] == value && forall m | k < m < |more| :: more[m] == "";
    }
  }

  function DeletedSince(u: User, v: User): nat {
    if v.status == Deleted && u.status != Deleted then 1 else 0
  }

  // Event k is a delete's UPDATE that finds this row and marks it.
  predicate Deletes(tr: Trace, k: nat, id: string)
    requires |tr.ss| == |tr.es| + 1 && k < |tr.es|
  {
    var s, e := tr.ss[k], tr.es[k];
    e.Step? && e.p in s.clients && s.clients[e.p].pc == Deleting(id) && Live(s.sh.users, id)
  }

  ghost predicate UpdatedTo(u: User, v: User, r: UpdateUserRequest, now: int) {
    Updated(u, r.patch, now, v) && u.version == r.expected && u.status != Deleted
  }

  lemma UpdateRow(t: Table, r: UpdateUserRequest, now: int, id: string)
    requires id in t
    ensures
      var o := Update(t, r.id, r.patch, r.expected, now);
      && id in o.table
      && (if r.id == id && o.result.Ok? then UpdatedTo(t[id], o.table[id], r, now) else o.table[id] == t[id])
  {
    UpdateColumns(t, r.id, r.patch, r.expected, now);
  }

  lemma MarkRow(t: Table, i: string, now: int, id: string)
    requires id in t
    ensures id in MarkDeleted(t, i, now)
    ensures
      var v := MarkDeleted(t, i, now)[id];
      if i == id && Live(t, id) then t[id].status != Deleted && Marked(t[id], now, v) else v == t[id]
  {
  }

  lemma InsertRow(t: Table, u: NewUser, gen: string, now: int, id: string)
    requires id in t
    ensures id in Insert(t, u, gen, now).table && Insert(t, u, gen, now).table[id] == t[id]
  {
  }

  lemma ExecUpdating(cfg: Config, sh: Shared, r: UpdateUserRequest, now: int, gen: string, lost: bool)
    ensures
      var x, o := Exec(cfg, sh, Updating(r), now, gen, lost), Update(sh.users, r.id, r.patch, r.expected, now);
      x.shared.users == o.table && Decision(x.pc) == Some(Profile(o.result))
  {
  }

  lemma ExecRow(cfg: Config, sh: Shared, pc: Pc, now: int, gen: string, lost: bool, id: string)
    requires id in sh.users
    ensures id in Exec(cfg, sh, pc, now, gen, lost).shared.users
    ensures
      var x := Exec(cfg, sh, pc, now, gen, lost);
      var u, v := sh.users[id], x.shared.users[id];
      if pc.Updating? && pc.update.id == id && Decision(x.pc).value.user.Ok? then UpdatedTo(u, v, pc.update, now)
      else if pc == Deleting(id) && Live(sh.users, id) then u.status != Deleted && Marked(u, now, v)
      else v == u
  {
    match pc
    case Inserting(u) => InsertRow(sh.users, u, gen, now, id);
    case Updating(r) =>
      ExecUpdating(cfg, sh, r, now, gen, lost);
      UpdateRow(sh.users, r, now, id);
    case Deleting(i) => MarkRow(sh.users, i, now, id);
    case _ => ExecLeavesUsers(cfg, sh, pc, now, gen, lost);
  }

  // One event and one row: patched by a successful update, marked by a delete, or as it was.
  lemma RowStep(tr: Trace, k: nat, id: string)
    requires IsTrace(tr) && k < |tr.es| && id in tr.ss[k].sh.users
    ensures id in tr.ss[k + 1].sh.users
    ensures
      var u, v := tr.ss[k].sh.users[id], tr.ss[k + 1].sh.users[id];
      if Updates(tr, k, id) then UpdatedTo(u, v, tr.ss[k].clients[tr.es[k].p].pc.update, tr.ss[k].now)
      else if Deletes(tr, k, id) then u.status != Deleted && Marked(u, tr.ss[k].now, v)
      else v == u
  {
    assert StepAt(tr, k);
    var s, e := tr.ss[k], tr.es[k];
    if e.Step? {
      ExecRow(tr.cfg, s.sh, s.clients[e.p].pc, s.now, e.gen, e.lost, id);
    }
  }

  // Each column of v is the last text these patches gave it, else that of u, and the version counts
  // the patches and the deletion.
  ghost predicate Accounts(u: User, ps: seq<Patch>, v: User) {
    && v.id == u.id && v.ext == u.ext && v.createdAt == u.createdAt
    && LastWritten(v.name, u.name, Names(ps))
    && LastWritten(v.phone, u.phone, Phones(ps))
    && LastWritten(v.email, u.email, Emails(ps))
    && v.version == u.version + |ps| + DeletedSince(u, v)
    && (v.status == u.status || v.status == Deleted)
    && (u.status == Deleted ==> v == u)
  }

  lemma AccountsUpdated(u: User, ps: seq<Patch>, v: User, w: User, r: UpdateUserRequest, now: int)
    requires Accounts(u, ps, v) && UpdatedTo(v, w, r, now)
    ensures Accounts(u, ps + [r.patch], w)
  {
    LastWrittenNext(v.name, u.name, Names(ps), r.patch.name);
    LastWrittenNext(v.phone, u.phone, Phones(ps), r.patch.phone);
    LastWrittenNext(v.email, u.email, Emails(ps), r.patch.email);
    assert Names(ps + [r.patch]) == Names(ps) + [r.patch.name];
    assert Phones(ps + [r.patch]) == Phones(ps) + [r.patch.phone];
    assert Emails(ps + [r.patch]) == Emails(ps) + [r.patch.email];
  }

  // No lost updates: between any two moments each column of a row ends as the last text that a
  // successful update gave it, and the version counts those updates and the deletion.
  lemma {:induction false} RowAccounting(tr: Trace, i: nat, k: nat, id: string)
    requires Reaches(tr, k) && i <= k && id in tr.ss[i].sh.users
    ensures id in tr.ss[k].sh.users
    ensures Accounts(tr.ss[i].sh.users[id], Patches(tr, id, i, k), tr.ss[k].sh.users[id])
  {
    if i < k {
      RowAccounting(tr, i, k - 1, id);
      RowStep(tr, k - 1, id);
      var u, v, w := tr.ss[i].sh.users[id], tr.ss[k - 1].sh.users[id], tr.ss[k].sh.users[id];
      if Updates(tr, k - 1, id) {
        var r := tr.ss[k - 1].clients[tr.es[k - 1].p].pc.update;
        AccountsUpdated(u, Patches(tr, id, i, k - 1), v, w, r, tr.ss[k - 1].now);
      } else {
        assert Patches(tr, id, i, k) == Patches(tr, id, i, k - 1);
      }
    }
  }

  // The row that an INSERT of these fields puts under this id.
  predicate InsertedAs(row: NewUser, gen: string, now: int, u: User) {
    && u.id == (if row.id == "" then gen else row.id)
    && u.ext == row.ext && u.name == row.name && u.phone == row.phone && u.email == row.email
    && u.status == row.status && u.version == 1 && u.createdAt == now && u.updatedAt == now
  }

  lemma InsertOnlyCreates(cfg: Config, sh: Shared, pc: Pc, now: int, gen: string, lost: bool, id: string)
    requires id !in sh.users && id in Exec(cfg, sh, pc, now, gen, lost).shared.users
    ensures pc.Inserting? && InsertedAs(pc.row, gen, now, Exec(cfg, sh, pc, now, gen, lost).shared.users[id])
  {
    match pc
    case Inserting(row) => InsertColumns(sh.users, row, gen, now);
    case Updating(r) =>
    case Deleting(i) =>
    case _ => ExecLeavesUsers(cfg, sh, pc, now, gen, lost);
  }

  // Where a row that was not there at the start was inserted, and as what.
  lemma {:induction false} CreatedAt(tr: Trace, k: nat, id: string) returns (j: nat)
    requires Reaches(tr, k) && id !in tr.ss[0].sh.users && id in tr.ss[k].sh.users
    ensures j < k && tr.es[j].Step? && tr.es[j].p in tr.ss[j].clients
    ensures tr.ss[j].clients[tr.es[j].p].pc.Inserting?
    ensures id in tr.ss[j + 1].sh.users
    ensures InsertedAs(tr.ss[j].clients[tr.es[j].p].pc.row, tr.es[j].gen, tr.ss[j].now, tr.ss[j + 1].sh.users[id])
  {
    assert k > 0;
    assert StepAt(tr, k - 1);
    if id in tr.ss[k - 1].sh.users {
      j := CreatedAt(tr, k - 1, id);
    } else {
      j := k - 1;
      var s, e := tr.ss[j], tr.es[j];
      InsertOnlyCreates(tr.cfg, s.sh, s.clients[e.p].pc, s.now, e.gen, e.lost, id);
    }
  }

  // The whole life of a row: each column is the last text a successful update gave it, else what
  // was inserted; version 1 plus one per update plus one for its deletion.
  lemma NoLostUpdates(tr: Trace, k: nat, id: string) returns (j: nat, row: NewUser)
    requires Reaches(tr, k) && id !in tr.ss[0].sh.users && id in tr.ss[k].sh.users
    requires forall p <- tr.ss[0].clients :: !tr.ss[0].clients[p].pc.Inserting?
    ensures j < k && tr.es[j].Step? && tr.es[j].p in tr.ss[j].clients
    ensures tr.ss[j].clients[tr.es[j].p].pc == Inserting(row)
    ensures
      var v, ps := tr.ss[k].sh.users[id], Patches(tr, id, j + 1, k);
      && v.id == id == (if row.id == "" then tr.es[j].gen else row.id)
      && v.ext == row.ext && v.createdAt == tr.ss[j].now
      && LastWritten(v.name, row.name, Names(ps))
      && LastWritten(v.phone, row.phone, Phones(ps))
      && LastWritten(v.email, row.email, Emails(ps))
      && (v.status == row.status || v.status == Deleted)
      && v.version == 1 + |ps| + if v.status == Deleted && row.status != Deleted then 1 else 0
  {
    j := CreatedAt(tr, k, id);
    row := tr.ss[j].clients[tr.es[j].p].pc.row;
    RowAccounting(tr, j + 1, k, id);
  }

  // What the request of a creating call asks each column to hold.
  predicate AsksFor(call: Call, ext: string, name: string, phone: string, email: string) {
    match call
    case CreateUser(r) => ext == r.ext && name == r.name && phone == r.phone && email == r.email
    case UpsertDriver(r) =>
      ext == r.ext && name == (if r.name == "" then "Driver" else r.name) && phone == r.phone && email == ""
    case _ => false
  }

  // In a run every row that was not there at the start was put there by a CreateUser or
  // UpsertDriver, ACTIVE, under the generated id, with what the request asked for, and has since
  // changed only as its successful updates and its deletion say.
  lemma NoLostUpdatesSinceRequest(tr: Trace, k: nat, id: string)
      returns (j: nat, name: string, phone: string, email: string)
    requires IsRun(tr) && Reaches(tr, k) && id !in tr.ss[0].sh.users && id in tr.ss[k].sh.users
    ensures j < k && tr.es[j].Step? && tr.es[j].p in tr.ss[j].clients && id == tr.es[j].gen
    ensures
      var v, ps := tr.ss[k].sh.users[id], Patches(tr, id, j + 1, k);
      && AsksFor(tr.ss[j].clients[tr.es[j].p].call, v.ext, name, phone, email)
      && v.id == id && v.createdAt == tr.ss[j].now
      && LastWritten(v.name, name, Names(ps))
      && LastWritten(v.phone, phone, Phones(ps))
      && LastWritten(v.email, email, Emails(ps))
      && (v.status == Active || v.status == Deleted)
      && v.version == 1 + |ps| + if v.status == Deleted then 1 else 0
  {
    var row: NewUser;
    j, row := NoLostUpdates(tr, k, id);
    name, phone, email := row.name, row.phone, row.email;
    ClientFits(tr, j, tr.es[j].p);
  }

  // Versions grow without gaps: each one in between was the current one at some moment.
  lemma {:induction false} EveryVersionWasCurrent(tr: Trace, i: nat, k: nat, id: string, v: int) returns (m: nat)
    requires Reaches(tr, k) && i <= k && id in tr.ss[i].sh.users && id in tr.ss[k].sh.users
    requires tr.ss[i].sh.users[id].version <= v <= tr.ss[k].sh.users[id].version
    ensures i <= m <= k && id in tr.ss[m].sh.users && tr.ss[m].sh.users[id].version == v
  {
    if tr.ss[k].sh.users[id].version == v {
      m := k;
    } else {
      UsersEvolve(tr, i, k - 1);
      RowStep(tr, k - 1, id);
      m := EveryVersionWasCurrent(tr, i, k - 1, id, v);
    }
  }

  predicate Wins(s: State, p: nat, id: string, expected: int) {
    && p in s.clients && s.clients[p].call.UpdateUser?
    && s.clients[p].call.update.id == id && s.clients[p].call.update.expected == expected
    && Succeeded(s, p)
  }

  // The event at which a winner won.
  lemma {:induction false} WonAt(tr: Trace, k: nat, p: nat, id: string, expected: int) returns (j: nat)
    requires IsRun(tr) && Reaches(tr, k) && Wins(tr.ss[k], p, id, expected)
    ensures j < k && tr.es[j].Step? && tr.es[j].p == p && Updates(tr, j, id)
    ensures id in tr.ss[j].sh.users && tr.ss[j].sh.users[id].version == expected
    ensures id in tr.ss[j + 1].sh.users && tr.ss[j + 1].sh.users[id].version == expected + 1
  {
    BeganFirst(tr, k, p);
    assert StepAt(tr, k - 1);
    var s := tr.ss[k - 1];
    if Wins(s, p, id, expected) {
      j := WonAt(tr, k - 1, p, id, expected);
    } else {
      ClientFits(tr, k - 1, p);
      j := k - 1;
    }
  }

  // At most one update per row and expected version ever succeeds.
  lemma OneWinner(tr: Trace, k: nat, p: nat, q: nat, id: string, expected: int)
    requires IsRun(tr) && Reaches(tr, k)
    requires Wins(tr.ss[k], p, id, expected) && Wins(tr.ss[k], q, id, expected)
    ensures p == q
  {
    var i := WonAt(tr, k, p, id, expected);
    var j := WonAt(tr, k, q, id, expected);
    if i < j {
      UsersEvolve(tr, i + 1, j);
    } else if j < i {
      UsersEvolve(tr, j + 1, i);
    }
  }

  ghost predicate VersionsStartAtOne(t: Table) {
    forall i <- t :: t[i].version >= 1
  }

  // Versions are always at least 1, so an expected version of 0 or less never wins.
  lemma ZeroNeverWins(tr: Trace, k: nat, p: nat, id: string, expected: int)
    requires IsRun(tr) && Reaches(tr, k) && VersionsStartAtOne(tr.ss[0].sh.users)
    requires Wins(tr.ss[k], p, id, expected)
    ensures expected >= 1
  {
    var j := WonAt(tr, k, p, id, expected);
    if id in tr.ss[0].sh.users {
      UsersEvolve(tr, 0, j);
    } else {
      var c := CreatedAt(tr, j, id);
      UsersEvolve(tr, c + 1, j);
    }
  }
}
