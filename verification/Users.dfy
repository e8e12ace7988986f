/**
  The user_profile table as its callers see it (plaintext), and each SQL statement of the
  Postgres adapter as one function on it.
 */
module Users {
  import opened Wrappers

  datatype Status = Active | Suspended | Deleted

  datatype User = User(id: string, ext: string, name: string, phone: string, email: string,
                       status: Status, version: int, createdAt: int, updatedAt: int)

  // The fields a caller hands to Create; an empty id asks the database to generate one.
  datatype NewUser = NewUser(id: string, ext: string, name: string, phone: string, email: string,
                             status: Status)

  // A partial patch: an empty string leaves its column alone.
  datatype Patch = Patch(name: string, phone: string, email: string)

  ghost predicate IdsMatch(t: map<string, User>) {
    forall i <- t :: t[i].id == i
  }

  ghost predicate UniqueExt(t: map<string, User>) {
    forall i, j | i in t && j in t && t[i].ext == t[j].ext :: i == j
  }

  // PRIMARY KEY (id) and UNIQUE (external_user_id).
  type Table = t: map<string, User> | IdsMatch(t) && UniqueExt(t) witness map[]

  datatype Outcome<+T> = Outcome(table: Table, result: Result<T>)

  // ----- Statements -----

  predicate Taken(t: Table, ext: string) {
    exists i <- t :: t[i].ext == ext
  }

  function Holder(t: Table, ext: string): (i: string)
    requires Taken(t, ext)
    ensures i in t && t[i].ext == ext
  {
    var i :| i in t && t[i].ext == ext; i
  }

  // SELECT ... WHERE id = $3
  function SelectById(t: Table, id: string): Result<User> {
    if id in t then Ok(t[id]) else Err(NotFound)
  }

  // SELECT ... WHERE external_user_id = $3
  function SelectByExt(t: Table, ext: string): Result<User> {
    if Taken(t, ext) then Ok(t[Holder(t, ext)]) else Err(NotFound)
  }

  function NewId(u: NewUser, gen: string): string {
    if u.id == "" then gen else u.id
  }

  function NewRow(u: NewUser, gen: string, now: int): User {
    User(NewId(u, gen), u.ext, u.name, u.phone, u.email, u.status, 1, now, now)
  }

  // INSERT ... RETURNING; both unique constraints raise 23505, which Create maps to ErrConflict.
  function Insert(t: Table, u: NewUser, gen: string, now: int): Outcome<User> {
    if NewId(u, gen) in t || Taken(t, u.ext) then Outcome(t, Err(Conflict))
    else
      var row := NewRow(u, gen, now);
      Outcome(t[row.id := row], Ok(row))
  }

  function Or(value: string, current: string): string {
    if value == "" then current else value
  }

  function ApplyPatch(u: User, p: Patch): User {
    u.(name := Or(p.name, u.name), phone := Or(p.phone, u.phone), email := Or(p.email, u.email))
  }

  // UPDATE ... WHERE id = $4 AND version = $6 AND status != 'DELETED'; no row means ErrConflict.
  function Update(t: Table, id: string, p: Patch, expected: int, now: int): Outcome<User> {
    if id in t && t[id].version == expected && t[id].status != Deleted then
      var row := ApplyPatch(t[id], p).(version := expected + 1, updatedAt := now);
      Outcome(t[id := row], Ok(row))
    else Outcome(t, Err(Conflict))
  }

  predicate Live(t: Table, id: string) {
    id in t && t[id].status != Deleted
  }

  // UPDATE ... SET status='DELETED' ... WHERE id = $1 AND status != 'DELETED'.
  function MarkDeleted(t: Table, id: string, now: int): Table {
    if Live(t, id) then
      t[id := t[id].(status := Deleted, version := t[id].version + 1, updatedAt := now)]
    else t
  }

  // ----- The statements, column by column -----

  // v is u with each column the patch's text if that is not empty and the old text otherwise.
  predicate Updated(u: User, p: Patch, now: int, v: User) {
    && v.id == u.id && v.ext == u.ext && v.status == u.status && v.createdAt == u.createdAt
    && v.name == (if p.name != "" then p.name else u.name)
    && v.phone == (if p.phone != "" then p.phone else u.phone)
    && v.email == (if p.email != "" then p.email else u.email)
    && v.version == u.version + 1 && v.updatedAt == now
  }

  // v is u, now DELETED.
  predicate Marked(u: User, now: int, v: User) {
    v == User(u.id, u.ext, u.name, u.phone, u.email, Deleted, u.version + 1, u.createdAt, now)
  }

  // A row goes in as asked for, unless its id or its identity is there.
  lemma InsertColumns(t: Table, u: NewUser, gen: string, now: int)
    ensures
      var o, id := Insert(t, u, gen, now), if u.id == "" then gen else u.id;
      if id in t || exists i <- t :: t[i].ext == u.ext then o == Outcome(t, Err(Conflict))
      else
        && o.result == Ok(User(id, u.ext, u.name, u.phone, u.email, u.status, 1, now, now))
        && o.table == t[id := o.result.value]
  {
  }

  // An update succeeds exactly on a row that is there, at the expected version and not DELETED; no
  // other row changes, and no column of this one that the patch leaves empty.
  lemma UpdateColumns(t: Table, id: string, p: Patch, expected: int, now: int)
    ensures
      var o := Update(t, id, p, expected, now);
      && (o.result.Ok? <==> id in t && t[id].version == expected && t[id].status != Deleted)
      && (o.result.Ok? ==> Updated(t[id], p, now, o.result.value) && o.table == t[id := o.result.value])
      && (o.result.Err? ==> o == Outcome(t, Err(Conflict)))
  {
  }

  lemma MarkDeletedColumns(t: Table, id: string, now: int)
    ensures
      var t' := MarkDeleted(t, id, now);
      if id in t && t[id].status != Deleted
      then t'.Keys == t.Keys && Marked(t[id], now, t'[id]) && forall i <- t :: i != id ==> t'[i] == t[i]
      else t' == t
  {
  }

  // ----- What one indivisible call would do -----

  function GetOrCreate(t: Table, u: NewUser, gen: string, now: int): Outcome<User> {
    if Taken(t, u.ext) then Outcome(t, Ok(t[Holder(t, u.ext)])) else Insert(t, u, gen, now)
  }

  function Remove(t: Table, id: string, now: int): Outcome<()> {
    if id in t then Outcome(MarkDeleted(t, id, now), Ok(())) else Outcome(t, Err(NotFound))
  }

  // ----- How the table may change between two moments -----

  ghost predicate RowEvolves(u: User, v: User) {
    && v.ext == u.ext && v.createdAt == u.createdAt && u.version <= v.version
    && (u.version == v.version ==> u == v)
    && (u.status == Deleted ==> u == v)
  }

  // Rows are never removed, keep their identity, gain a version with every change, and stop
  // changing once DELETED. This is what any client may rely on while others run.
  ghost predicate Evolves(t: Table, t': Table) {
    forall i <- t :: i in t' && RowEvolves(t[i], t'[i])
  }

  lemma EvolvesTransitive(a: Table, b: Table, c: Table)
    requires Evolves(a, b) && Evolves(b, c)
    ensures Evolves(a, c)
  {
    forall i | i in a ensures i in c && RowEvolves(a[i], c[i]) {
      assert i in b && RowEvolves(a[i], b[i]) && RowEvolves(b[i], c[i]);
    }
  }

  lemma TakenForever(t: Table, t': Table, ext: string)
    requires Evolves(t, t') && Taken(t, ext)
    ensures Taken(t', ext) && Holder(t', ext) == Holder(t, ext)
  {
    var i := Holder(t, ext);
    assert i in t' && RowEvolves(t[i], t'[i]);
  }

  lemma InsertEvolves(t: Table, u: NewUser, gen: string, now: int)
    ensures Evolves(t, Insert(t, u, gen, now).table)
  {
  }

  lemma UpdateEvolves(t: Table, id: string, p: Patch, expected: int, now: int)
    ensures Evolves(t, Update(t, id, p, expected, now).table)
  {
  }

  lemma MarkDeletedEvolves(t: Table, id: string, now: int)
    ensures Evolves(t, MarkDeleted(t, id, now))
  {
  }
}
