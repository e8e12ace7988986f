/** The in-memory user repository of the tests: two maps that must stay in step. */
module FakeUsers {
  import opened Wrappers
  import opened Users

  type ById = map<string, User>
  type ByExt = map<string, string>

  // byExtID names row i for identity e exactly when row i has that identity.
  ghost predicate Agree(byID: ById, byExtID: ByExt) {
    && (forall e <- byExtID :: byExtID[e] in byID && byID[byExtID[e]].ext == e)
    && (forall i <- byID :: byID[i].ext in byExtID && byExtID[byID[i].ext] == i)
  }

  function MockId(ext: string): string {
    "mock-" + ext
  }

  lemma MockIdInjective(a: string, b: string)
    requires MockId(a) == MockId(b)
    ensures a == b
  {
    assert MockId(a)[5..] == a && MockId(b)[5..] == b;
  }

  // Rows created with an empty id, as the use cases create them.
  ghost predicate NamedAfterIdentity(byID: ById) {
    forall i <- byID :: i == MockId(byID[i].ext) && byID[i].id == i
  }

  // Storing a row keeps the maps in step exactly when neither its id nor its identity belongs
  // to another row already; Create itself does not look.
  lemma StoreKeepsAgreementExactly(byID: ById, byExtID: ByExt, row: User)
    requires Agree(byID, byExtID)
    ensures Agree(byID[row.id := row], byExtID[row.ext := row.id]) <==>
              && (row.id in byID ==> byID[row.id].ext == row.ext)
              && (row.ext in byExtID ==> byExtID[row.ext] == row.id)
  {
    var a, b := byID[row.id := row], byExtID[row.ext := row.id];
    if row.id in byID && byID[row.id].ext != row.ext {
      var e := byID[row.id].ext;
      assert e in b && b[e] == row.id && a[b[e]].ext != e;
    }
    if row.ext in byExtID && byExtID[row.ext] != row.id {
      var i := byExtID[row.ext];
      assert i in a && a[i].ext == row.ext && b[a[i].ext] != i;
    }
  }

  lemma SameIdentityAgrees(byID: ById, byExtID: ByExt, row: User)
    requires Agree(byID, byExtID) && NamedAfterIdentity(byID)
    requires row.id in byID && byID[row.id].ext == row.ext
    ensures Agree(byID[row.id := row], byExtID) && NamedAfterIdentity(byID[row.id := row])
  {
  }

  predicate Shown(u: User, filter: Option<Status>) {
    if filter.Some? then u.status == filter.value else u.status != Deleted
  }

  // The rows among these ids that a filter shows.
  function ShownAmong(byID: ById, ids: set<string>, filter: Option<Status>): set<string> {
    set i | i in ids && i in byID && Shown(byID[i], filter)
  }

  lemma ShownOneMore(byID: ById, ids: set<string>, i: string, filter: Option<Status>)
    requires i in byID && i !in ids
    ensures |ShownAmong(byID, ids + {i}, filter)|
            == |ShownAmong(byID, ids, filter)| + if Shown(byID[i], filter) then 1 else 0
  {
    var some, more := ShownAmong(byID, ids, filter), ShownAmong(byID, ids + {i}, filter);
    assert more == if Shown(byID[i], filter) then some + {i} else some;
  }

  class MockUserRepository {
    var byID: ById
    var byExtID: ByExt

    constructor ()
      ensures byID == map[] && byExtID == map[] && Valid()
    {
      byID, byExtID := map[], map[];
    }

    ghost predicate Valid()
      reads this
    {
      Agree(byID, byExtID) && NamedAfterIdentity(byID)
    }

    // Overwrites whatever is there; the maps stay in step for the empty ids of the use cases.
    method Create(u: NewUser) returns (r: User)
      modifies this
      ensures r == User(if u.id == "" then "mock-" + u.ext else u.id, u.ext, u.name, u.phone, u.email, u.status,
                        1, 0, 0)
      ensures byID == old(byID)[r.id := r] && byExtID == old(byExtID)[u.ext := r.id]
      ensures old(Valid()) && u.id == "" ==> Valid()
    {
      var id := u.id;
      if id == "" {
        id := MockId(u.ext);
      }
      r := User(id, u.ext, u.name, u.phone, u.email, u.status, 1, 0, 0);
      if Valid() && u.id == "" {
        if id in byID { MockIdInjective(byID[id].ext, u.ext); }
        StoreKeepsAgreementExactly(byID, byExtID, r);
      }
      byID := byID[id := r];
      byExtID := byExtID[u.ext := id];
    }

    method GetByID(id: string) returns (r: Result<User>)
      ensures r == if id in byID then Ok(byID[id]) else Err(NotFound)
    {
      if id in byID {
        return Ok(byID[id]);
      }
      return Err(NotFound);
    }

    // Through the second map, and still the one row of that identity.
    method GetByExternalID(ext: string) returns (r: Result<User>)
      requires Valid()
      ensures r.Ok? ==> r.value.id in byID && byID[r.value.id] == r.value && r.value.ext == ext
      ensures r.Err? ==> r.error == NotFound && forall i <- byID :: byID[i].ext != ext
    {
      if ext in byExtID {
        return Ok(byID[byExtID[ext]]);
      }
      return Err(NotFound);
    }

    // No default name here, unlike the Postgres adapter.
    method GetOrCreateByMSISDN(msisdn: string, ext: string, fullName: string) returns (r: User)
      requires Valid()
      modifies this
      ensures Valid() && r.ext == ext && r.id in byID && byID[r.id] == r
      ensures ext in old(byExtID) ==> byID == old(byID) && byExtID == old(byExtID)
      ensures ext !in old(byExtID) ==>
                && r == User("mock-" + ext, ext, fullName, msisdn, "", Active, 1, 0, 0)
                && byID == old(byID)[r.id := r] && byExtID == old(byExtID)[ext := r.id]
    {
      var found := GetByExternalID(ext);
      if found.Ok? {
        return found.value;
      }
      r := Create(NewUser("", ext, fullName, msisdn, "", Active));
    }

    // Accepts version 0 and deleted rows, unlike the Postgres adapter.
    method Update(id: string, p: Patch, expected: int) returns (r: Result<User>)
      requires Valid()
      modifies this
      ensures Valid() && byExtID == old(byExtID)
      ensures id !in old(byID) ==> r == Err(NotFound)
      ensures id in old(byID) && expected != 0 && old(byID)[id].version != expected ==> r == Err(Conflict)
      ensures id in old(byID) && (expected == 0 || old(byID)[id].version == expected) ==>
                var u := old(byID)[id];
                r == Ok(User(u.id, u.ext, if p.name != "" then p.name else u.name,
                             if p.phone != "" then p.phone else u.phone,
                             if p.email != "" then p.email else u.email,
                             u.status, u.version + 1, u.createdAt, u.updatedAt))
      ensures byID == if r.Ok? then old(byID)[id := r.value] else old(byID)
    {
      if id !in byID {
        return Err(NotFound);
      }
      var cur := byID[id];
      if expected != 0 && cur.version != expected {
        return Err(Conflict);
      }
      if p.name != "" {
        cur := cur.(name := p.name);
      }
      if p.phone != "" {
        cur := cur.(phone := p.phone);
      }
      if p.email != "" {
        cur := cur.(email := p.email);
      }
      cur := cur.(version := cur.version + 1);
      SameIdentityAgrees(byID, byExtID, cur);
      byID := byID[id := cur];
      return Ok(cur);
    }

    // Leaves the version alone, and says nothing about unknown ids, unlike the Postgres adapter.
    method SoftDelete(id: string)
      requires Valid()
      modifies this
      ensures Valid() && byExtID == old(byExtID)
      ensures byID == if id in old(byID) then old(byID)[id := old(byID)[id].(status := Deleted)] else old(byID)
    {
      if id !in byID {
        return;
      }
      byID := byID[id := byID[id].(status := Deleted)];
    }

    // In the map's own order; an explicit filter also finds deleted rows.
    method List(filter: Option<Status>) returns (out: seq<User>, total: nat)
      requires Valid()
      ensures forall i <- byID ::
                byID[i] in out <==> (filter == Some(byID[i].status) || (filter == None && byID[i].status != Deleted))
      ensures forall u <- out :: u.id in byID && byID[u.id] == u
      ensures forall k, l | 0 <= k < l < |out| :: out[k].id != out[l].id
      ensures total == |out|
      ensures total == |ShownAmong(byID, byID.Keys, filter)|
    {
      out := [];
      var rest := byID.Keys;
      while rest != {}
        invariant rest <= byID.Keys
        invariant forall i <- byID :: byID[i] in out <==> i !in rest && Shown(byID[i], filter)
        invariant forall u <- out :: u.id in byID && u.id !in rest && byID[u.id] == u
        invariant forall k, l | 0 <= k < l < |out| :: out[k].id != out[l].id
        invariant |out| == |ShownAmong(byID, byID.Keys - rest, filter)|
      {
        var i :| i in rest;
        ShownOneMore(byID, byID.Keys - rest, i, filter);
        assert byID.Keys - (rest - {i}) == byID.Keys - rest + {i};
        rest := rest - {i};
        if filter.Some? {
          if byID[i].status != filter.value {
            continue;
          }
        } else {
          if byID[i].status == Deleted {
            continue;
          }
        }
        assert byID[i] !in out;
        out := out + [byID[i]];
      }
      total := |out|;
      assert byID.Keys - rest == byID.Keys;
    }
  }
}
