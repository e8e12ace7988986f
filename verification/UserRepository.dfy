/** The Postgres adapter for users: an object over the encrypted table. */
module UserRepositories {
  import opened Wrappers
  import opened Users
  import opened Encryption
  import opened OrderBy
  import opened Pagination
  import opened Requests
  import opened Deletion

  // Where an indivisible get-or-create fits between the table before a call and after it.
  ghost predicate TookEffectAt(before: Table, at: Table, after: Table, u: NewUser, gen: string, now: int,
                               r: Result<User>)
  {
    Evolves(before, at) && GetOrCreate(at, u, gen, now) == Outcome(after, r)
  }

  // SELECT COUNT(*) with the same WHERE clause.
  function Count(rows: StoredTable, filter: Option<Status>): nat {
    |set i | i in rows && Listable(rows[i].status, filter)|
  }

  lemma CountRefines(c: Cipher, rows: StoredTable, filter: Option<Status>)
    ensures Count(rows, filter) == |ListRanks(Plain(c, rows), filter)|
  {
    assert ListRanks(Plain(c, rows), filter).Keys == set i | i in rows && Listable(rows[i].status, filter);
  }

  // Each row of a page is one that the filter lets through, and none comes before a newer one.
  lemma PageListed(t: Table, filter: Option<Status>, plan: seq<string>, limit: int, offset: int)
    requires Answers(ListRanks(t, filter), plan)
    ensures
      var page := ListAnswer(plan, limit, offset);
      && (forall k | 0 <= k < |page| ::
            page[k] in t && t[page[k]].status != Deleted && (filter == None || filter == Some(t[page[k]].status)))
      && (forall k, m | 0 <= k < m < |page| ::
            page[k] != page[m] && t[page[k]].createdAt >= t[page[m]].createdAt)
  {
    ListAnswerExact(plan, limit, offset);
    forall k | 0 <= k < |plan| ensures plan[k] in ListRanks(t, filter) {
      assert plan[k] in plan;
    }
  }

  // What List returns of the rows the database has in this order.
  ghost predicate Listed(plan: seq<string>, filter: Option<Status>, limit: int, offset: int, users: seq<User>) {
    var most := if limit <= 0 then 50 else if limit > 200 then 200 else limit;
    var from := if offset < 0 then 0 else offset;
    && |users| == (if |plan| <= from then 0 else if |plan| - from < most then |plan| - from else most)
    && (forall k | 0 <= k < |users| :: users[k].id == plan[from + k])
    && (forall u <- users :: u.status != Deleted && (filter == None || filter == Some(u.status)))
    && (forall k, m | 0 <= k < m < |users| ::
          users[k].id != users[m].id && users[k].createdAt >= users[m].createdAt)
  }

  lemma RowsListed(t: Table, filter: Option<Status>, plan: seq<string>, limit: int, offset: int, users: seq<User>)
    requires Answers(ListRanks(t, filter), plan)
    requires
      var page := ListAnswer(plan, limit, offset);
      |users| == |page| && forall k | 0 <= k < |page| :: page[k] in t && users[k] == t[page[k]]
    ensures Listed(plan, filter, limit, offset, users)
  {
    PageListed(t, filter, plan, limit, offset);
    ListAnswerExact(plan, limit, offset);
    var page := ListAnswer(plan, limit, offset);
    forall k | 0 <= k < |users| ensures users[k].id == page[k] {
      assert t[page[k]].id == page[k];
    }
  }

  class UserRepository {
    const cipher: Cipher
    var rows: StoredTable

    constructor (cipher: Cipher, rows: StoredTable)
      ensures this.cipher == cipher && this.rows == rows
    {
      this.cipher := cipher;
      this.rows := rows;
    }

    ghost predicate Valid() {
      Sound(cipher)
    }

    // The table as callers see it.
    ghost function Contents(): Table
      reads this
    {
      Plain(cipher, rows)
    }

    // Other clients run between two statements: anything Evolves allows, but the id this
    // call may generate is not theirs. A quiet call has nobody beside it.
    method Others(ghost quiet: bool, ghost gen: string)
      modifies this
      ensures Evolves(old(Contents()), Contents())
      ensures gen in Contents() ==> gen in old(Contents())
      ensures quiet ==> rows == old(rows)
    {
    }

    method Create(u: NewUser, gen: string, now: int) returns (r: Result<User>)
      requires Valid()
      modifies this
      ensures Outcome(Contents(), r) == Insert(old(Contents()), u, gen, now)
      ensures var id, t := if u.id == "" then gen else u.id, old(Contents());
              if id in t || exists i <- t :: t[i].ext == u.ext
              then r == Err(Conflict) && Contents() == t
              else r == Ok(User(id, u.ext, u.name, u.phone, u.email, u.status, 1, now, now))
                   && Contents() == t[id := r.value]
    {
      InsertColumns(Contents(), u, gen, now);
      var a: nat, b: nat, c: nat, d: nat := *, *, *, *;
      var ns := Nonces(a, b, c, d);
      InsertRefines(cipher, rows, u, gen, now, ns);
      var o := StoredInsert(cipher, rows, u, gen, now, ns);
      rows := o.table;
      r := o.result;
    }

    method GetByID(id: string) returns (r: Result<User>)
      ensures r == if id in Contents() then Ok(Contents()[id]) else Err(NotFound)
    {
      SelectsRefine(cipher, rows, id, "");
      r := StoredSelectById(cipher, rows, id);
    }

    method GetByExternalID(ext: string) returns (r: Result<User>)
      ensures r == SelectByExt(Contents(), ext)
      ensures forall i <- Contents() :: Contents()[i].ext == ext ==> r == Ok(Contents()[i])
      ensures (forall i <- Contents() :: Contents()[i].ext != ext) ==> r == Err(NotFound)
    {
      SelectsRefine(cipher, rows, "", ext);
      r := StoredSelectByExt(cipher, rows, ext);
    }

    method Update(id: string, p: Patch, expected: int, now: int) returns (r: Result<User>)
      requires Valid()
      modifies this
      ensures Outcome(Contents(), r) == Users.Update(old(Contents()), id, p, expected, now)
      ensures var t := old(Contents());
              if id !in t || t[id].version != expected || t[id].status == Deleted
              then r == Err(Conflict) && Contents() == t
              else r.Ok? && Updated(t[id], p, now, r.value) && Contents() == t[id := r.value]
    {
      UpdateColumns(Contents(), id, p, expected, now);
      var a: nat, b: nat := *, *;
      var ns := Nonces(a, 0, b, 0);
      UpdateRefines(cipher, rows, id, p, expected, now, ns);
      var o := StoredUpdate(cipher, rows, id, p, expected, now, ns);
      rows := o.table;
      r := o.result;
    }

    // Read, insert, and read again if another caller inserted in between. Whatever the others
    // do, the call takes effect in one piece at its last statement, and always returns a row.
    method GetOrCreateByMSISDN(msisdn: string, ext: string, fullName: string, now: int, gen: string, ghost quiet: bool)
      returns (r: Result<User>, ghost at: Table)
      requires Valid() && gen !in Contents()
      modifies this
      ensures var u := DriverRow(UpsertDriverRequest(msisdn, ext, fullName));
              TookEffectAt(old(Contents()), at, Contents(), u, gen, now, r)
      ensures r.Ok? && r.value.ext == ext
      ensures forall i <- at :: at[i].ext == ext ==> r == Ok(at[i]) && Contents() == at
      ensures (forall i <- at :: at[i].ext != ext) ==>
                && r == Ok(User(gen, ext, if fullName == "" then "Driver" else fullName, msisdn, "", Active,
                                1, now, now))
                && Contents() == at[gen := r.value]
      ensures Evolves(old(Contents()), Contents())
      ensures quiet ==> at == old(Contents())
    {
      ghost var u := DriverRow(UpsertDriverRequest(msisdn, ext, fullName));
      at := Contents();
      r := GetByExternalID(ext);
      if r.Ok? { return; }

      Others(quiet, gen);
      var name := fullName;
      if name == "" {
        name := "Driver";
      }
      at := Contents();
      r := Create(NewUser("", ext, name, msisdn, "", Active), gen, now);
      InsertEvolves(at, u, gen, now);
      EvolvesTransitive(old(Contents()), at, Contents());
      if r == Err(Conflict) {
        ghost var conflicted := Contents();
        Others(quiet, gen);
        TakenForever(conflicted, Contents(), ext);
        EvolvesTransitive(old(Contents()), conflicted, Contents());
        at := Contents();
        r := GetByExternalID(ext);
      }
    }

    // Conditional UPDATE, then EXISTS if it changed nothing.
    method SoftDelete(id: string, now: int, ghost quiet: bool) returns (r: Result<()>)
      requires Valid()
      modifies this
      ensures Evolves(old(Contents()), Contents())
      ensures id in old(Contents()) ==> r == Ok(()) && IsDeleted(Contents(), id)
      ensures r != Ok(()) ==> r == Err(NotFound) && id !in Contents()
      ensures id in old(Contents()) && old(Contents())[id].status != Deleted ==>
                && id in Contents() && Marked(old(Contents())[id], now, Contents()[id])
                && Contents() == old(Contents())[id := Contents()[id]]
      ensures quiet ==> Outcome(Contents(), r) == Remove(old(Contents()), id, now)
    {
      MarkDeletedColumns(Contents(), id, now);
      MarkDeletedEvolves(Contents(), id, now);
      MarkDeletedRefines(cipher, rows, id, now);
      var n := if StoredLive(rows, id) then 1 else 0;
      rows := StoredMarkDeleted(rows, id, now);
      if n == 0 {
        ghost var marked := Contents();
        Others(quiet, "");
        assert id in marked ==> RowEvolves(marked[id], Contents()[id]);
        if id !in rows {
          return Err(NotFound);
        }
      }
      return Ok(());
    }

    // plan is the order in which the database returns the matching rows: newest first, ties as it
    // likes. The count is a second statement.
    method List(limit: int, offset: int, filter: Option<Status>, plan: seq<string>, ghost quiet: bool)
      returns (users: seq<User>, total: int)
      requires Answers(ListRanks(Contents(), filter), plan)
      modifies this
      ensures var ids := ListAnswer(plan, limit, offset);
              && |users| == |ids|
              && forall k | 0 <= k < |ids| :: ids[k] in old(Contents()) && users[k] == old(Contents())[ids[k]]
      ensures Listed(plan, filter, limit, offset, users)
      ensures total == |set i | i in Contents() && Contents()[i].status != Deleted
                                && (filter == None || filter == Some(Contents()[i].status))|
      ensures Evolves(old(Contents()), Contents()) && (quiet ==> rows == old(rows) && total == |plan|)
    {
      var l, o := limit, offset;
      if l <= 0 {
        l := DEFAULT_LIST_LIMIT;
      }
      if l > MAX_LIST_LIMIT {
        l := MAX_LIST_LIMIT;
      }
      if o < 0 {
        o := 0;
      }
      var result := Page(plan, l, o);
      ghost var t := Contents();
      PageListed(t, filter, plan, limit, offset);
      assert result == ListAnswer(plan, limit, offset);
      users := [];
      for k := 0 to |result|
        invariant |users| == k
        invariant forall m | 0 <= m < k :: users[m] == t[result[m]]
      {
        users := users + [Decode(cipher, result[k], rows[result[k]])];
      }
      RowsListed(t, filter, plan, limit, offset, users);
      AnswerLength(ListRanks(t, filter), plan);
      Others(quiet, "");
      CountRefines(cipher, rows, filter);
      RanksAreListable(Contents(), filter);
      total := Count(rows, filter);
    }
  }
}
