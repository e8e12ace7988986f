/**
  The stored form of user_profile: phone and e-mail live in encrypted, nullable columns, written
  with fresh randomness each time. Decryption maps every stored statement onto the plaintext one.
 */
module Encryption {
  import opened Wrappers
  import opened Users

  type Bytes = seq<bv8>

  // pgp_sym_encrypt and pgp_sym_decrypt under the adapter's key. The second argument of enc is
  // the randomness of that one encryption.
  datatype Cipher = Cipher(enc: (string, nat) -> Bytes, dec: Bytes -> string)

  ghost predicate Sound(c: Cipher) {
    forall p: string, n: nat :: c.dec(c.enc(p, n)) == p
  }

  datatype StoredUser = StoredUser(ext: string, name: string, phoneEnc: Option<Bytes>, emailEnc: Option<Bytes>,
                                   status: Status, version: int, createdAt: int, updatedAt: int)

  ghost predicate UniqueStoredExt(t: map<string, StoredUser>) {
    forall i, j | i in t && j in t && t[i].ext == t[j].ext :: i == j
  }

  type StoredTable = t: map<string, StoredUser> | UniqueStoredExt(t) witness map[]

  // COALESCE(pgp_sym_decrypt(column), '')
  function ReadColumn(c: Cipher, column: Option<Bytes>): string {
    if column.Some? then c.dec(column.value) else ""
  }

  function Decode(c: Cipher, id: string, row: StoredUser): User {
    User(id, row.ext, row.name, ReadColumn(c, row.phoneEnc), ReadColumn(c, row.emailEnc),
         row.status, row.version, row.createdAt, row.updatedAt)
  }

  // What the stored table means.
  function Plain(c: Cipher, t: StoredTable): Table {
    map i | i in t :: Decode(c, i, t[i])
  }

  // ----- Stored statements -----

  // NULLIF(pgp_sym_encrypt(p), pgp_sym_encrypt('')): the two encryptions draw their own randomness.
  function NewColumn(c: Cipher, p: string, n: nat, m: nat): Option<Bytes> {
    if c.enc(p, n) == c.enc("", m) then None else Some(c.enc(p, n))
  }

  // CASE WHEN $2 = '' THEN column ELSE pgp_sym_encrypt($2) END
  function PatchColumn(c: Cipher, column: Option<Bytes>, p: string, n: nat): Option<Bytes> {
    if p == "" then column else Some(c.enc(p, n))
  }

  datatype StoredOutcome<+T> = StoredOutcome(table: StoredTable, result: Result<T>)

  datatype Nonces = Nonces(phone: nat, emptyPhone: nat, email: nat, emptyEmail: nat)

  predicate StoredTaken(t: StoredTable, ext: string) {
    exists i <- t :: t[i].ext == ext
  }

  function StoredSelectById(c: Cipher, t: StoredTable, id: string): Result<User> {
    if id in t then Ok(Decode(c, id, t[id])) else Err(NotFound)
  }

  function StoredSelectByExt(c: Cipher, t: StoredTable, ext: string): Result<User> {
    if StoredTaken(t, ext) then
      var i :| i in t && t[i].ext == ext;
      Ok(Decode(c, i, t[i]))
    else Err(NotFound)
  }

  function StoredInsert(c: Cipher, t: StoredTable, u: NewUser, gen: string, now: int, ns: Nonces): StoredOutcome<User> {
    var id := NewId(u, gen);
    if id in t || StoredTaken(t, u.ext) then StoredOutcome(t, Err(Conflict))
    else
      var row := StoredUser(u.ext, u.name, NewColumn(c, u.phone, ns.phone, ns.emptyPhone),
                            NewColumn(c, u.email, ns.email, ns.emptyEmail), u.status, 1, now, now);
      StoredOutcome(t[id := row], Ok(Decode(c, id, row)))
  }

  function StoredUpdate(c: Cipher, t: StoredTable, id: string, p: Patch, expected: int, now: int, ns: Nonces)
    : StoredOutcome<User>
  {
    if id in t && t[id].version == expected && t[id].status != Deleted then
      var row := t[id].(name := Or(p.name, t[id].name),
                        phoneEnc := PatchColumn(c, t[id].phoneEnc, p.phone, ns.phone),
                        emailEnc := PatchColumn(c, t[id].emailEnc, p.email, ns.email),
                        version := t[id].version + 1, updatedAt := now);
      StoredOutcome(t[id := row], Ok(Decode(c, id, row)))
    else StoredOutcome(t, Err(Conflict))
  }

  predicate StoredLive(t: StoredTable, id: string) {
    id in t && t[id].status != Deleted
  }

  function StoredMarkDeleted(t: StoredTable, id: string, now: int): StoredTable {
    if StoredLive(t, id) then
      t[id := t[id].(status := Deleted, version := t[id].version + 1, updatedAt := now)]
    else t
  }

  // ----- Refinement -----

  // An inserted column reads back as what was given, and is NULL only for the empty text; whether
  // the empty text is stored as NULL depends on the randomness and cannot be noticed.
  lemma ColumnRoundTrip(c: Cipher, p: string, n: nat, m: nat)
    requires Sound(c)
    ensures ReadColumn(c, NewColumn(c, p, n, m)) == p
    ensures NewColumn(c, p, n, m).None? ==> p == ""
    ensures PatchColumn(c, NewColumn(c, p, n, m), "", n) == NewColumn(c, p, n, m)
    ensures forall q: string :: ReadColumn(c, PatchColumn(c, NewColumn(c, p, n, m), q, n)) == if q != "" then q else p
    ensures p == "" && n == m ==> NewColumn(c, p, n, m).None?
  {
    assert c.dec(c.enc(p, n)) == p && c.dec(c.enc("", m)) == "";
  }

  lemma TakenRefines(c: Cipher, t: StoredTable, ext: string)
    ensures StoredTaken(t, ext) <==> Taken(Plain(c, t), ext)
  {
    forall i | i in t ensures Plain(c, t)[i].ext == t[i].ext {}
  }

  lemma SelectsRefine(c: Cipher, t: StoredTable, id: string, ext: string)
    ensures StoredSelectById(c, t, id) == SelectById(Plain(c, t), id)
    ensures StoredSelectByExt(c, t, ext) == SelectByExt(Plain(c, t), ext)
  {
    TakenRefines(c, t, ext);
    if Taken(Plain(c, t), ext) {
      var i := Holder(Plain(c, t), ext);
      assert t[i].ext == ext;
    }
  }

  lemma InsertRefines(c: Cipher, t: StoredTable, u: NewUser, gen: string, now: int, ns: Nonces)
    requires Sound(c)
    ensures
      var o := StoredInsert(c, t, u, gen, now, ns);
      && Outcome(Plain(c, o.table), o.result) == Insert(Plain(c, t), u, gen, now)
      && (o.result.Ok? ==>
            var id := if u.id == "" then gen else u.id;
            && o.result.value == User(id, u.ext, u.name, u.phone, u.email, u.status, 1, now, now)
            && Plain(c, o.table) == Plain(c, t)[id := o.result.value])
  {
    TakenRefines(c, t, u.ext);
    ColumnRoundTrip(c, u.phone, ns.phone, ns.emptyPhone);
    ColumnRoundTrip(c, u.email, ns.email, ns.emptyEmail);
    var o, id := StoredInsert(c, t, u, gen, now, ns), NewId(u, gen);
    if o.result.Ok? {
      assert Decode(c, id, o.table[id]) == NewRow(u, gen, now);
      assert Plain(c, o.table) == Plain(c, t)[id := NewRow(u, gen, now)];
    }
  }

  lemma UpdateRefines(c: Cipher, t: StoredTable, id: string, p: Patch, expected: int, now: int, ns: Nonces)
    requires Sound(c)
    ensures
      var o := StoredUpdate(c, t, id, p, expected, now, ns);
      && Outcome(Plain(c, o.table), o.result) == Update(Plain(c, t), id, p, expected, now)
      && (o.result.Ok? ==>
            id in t && Updated(Decode(c, id, t[id]), p, now, o.result.value)
            && Plain(c, o.table) == Plain(c, t)[id := o.result.value])
  {
    assert c.dec(c.enc(p.phone, ns.phone)) == p.phone && c.dec(c.enc(p.email, ns.email)) == p.email;
    var o := StoredUpdate(c, t, id, p, expected, now, ns);
    if o.result.Ok? {
      var row := ApplyPatch(Decode(c, id, t[id]), p).(version := expected + 1, updatedAt := now);
      assert Decode(c, id, o.table[id]) == row;
      UpdateColumns(Plain(c, t), id, p, expected, now);
      assert Plain(c, o.table) == Plain(c, t)[id := row];
    }
  }

  lemma MarkDeletedRefines(c: Cipher, t: StoredTable, id: string, now: int)
    ensures Plain(c, StoredMarkDeleted(t, id, now)) == MarkDeleted(Plain(c, t), id, now)
    ensures StoredLive(t, id) <==> Live(Plain(c, t), id)
    ensures StoredLive(t, id) ==>
              id in StoredMarkDeleted(t, id, now)
              && Marked(Decode(c, id, t[id]), now, Decode(c, id, StoredMarkDeleted(t, id, now)[id]))
  {
  }

  // ----- Whole runs -----

  datatype Statement =
    | SelectIdStmt(id: string)
    | SelectExtStmt(ext: string)
    | InsertStmt(u: NewUser, gen: string, now: int, ns: Nonces)
    | UpdateStmt(id: string, p: Patch, expected: int, now: int, ns: Nonces)
    | MarkDeletedStmt(id: string, now: int)

  datatype StoredRun = StoredRun(table: StoredTable, results: seq<Option<Result<User>>>)

  datatype PlainRun = PlainRun(table: Table, results: seq<Option<Result<User>>>)

  function RunStored(c: Cipher, t: StoredTable, ss: seq<Statement>): StoredRun {
    if ss == [] then StoredRun(t, [])
    else
      var r := RunStored(c, t, ss[..|ss| - 1]);
      match ss[|ss| - 1]
      case SelectIdStmt(id) => StoredRun(r.table, r.results + [Some(StoredSelectById(c, r.table, id))])
      case SelectExtStmt(ext) => StoredRun(r.table, r.results + [Some(StoredSelectByExt(c, r.table, ext))])
      case InsertStmt(u, gen, now, ns) =>
        var o := StoredInsert(c, r.table, u, gen, now, ns); StoredRun(o.table, r.results + [Some(o.result)])
      case UpdateStmt(id, p, expected, now, ns) =>
        var o := StoredUpdate(c, r.table, id, p, expected, now, ns); StoredRun(o.table, r.results + [Some(o.result)])
      case MarkDeletedStmt(id, now) => StoredRun(StoredMarkDeleted(r.table, id, now), r.results + [None])
  }

  // The same statements on plaintext; no randomness appears.
  function RunPlain(t: Table, ss: seq<Statement>): PlainRun {
    if ss == [] then PlainRun(t, [])
    else
      var r := RunPlain(t, ss[..|ss| - 1]);
      match ss[|ss| - 1]
      case SelectIdStmt(id) => PlainRun(r.table, r.results + [Some(SelectById(r.table, id))])
      case SelectExtStmt(ext) => PlainRun(r.table, r.results + [Some(SelectByExt(r.table, ext))])
      case InsertStmt(u, gen, now, _) =>
        var o := Insert(r.table, u, gen, now); PlainRun(o.table, r.results + [Some(o.result)])
      case UpdateStmt(id, p, expected, now, _) =>
        var o := Update(r.table, id, p, expected, now); PlainRun(o.table, r.results + [Some(o.result)])
      case MarkDeletedStmt(id, now) => PlainRun(MarkDeleted(r.table, id, now), r.results + [None])
  }

  // For any randomness, a run on the encrypted table answers as the plaintext run does and
  // ends in a table that means the same.
  lemma {:induction false} EncryptedRunRefines(c: Cipher, t: StoredTable, ss: seq<Statement>)
    requires Sound(c)
    ensures
      var s, p := RunStored(c, t, ss), RunPlain(Plain(c, t), ss);
      Plain(c, s.table) == p.table && s.results == p.results
  {
    if ss != [] {
      EncryptedRunRefines(c, t, ss[..|ss| - 1]);
      var r := RunStored(c, t, ss[..|ss| - 1]);
      match ss[|ss| - 1]
      case SelectIdStmt(id) => SelectsRefine(c, r.table, id, "");
      case SelectExtStmt(ext) => SelectsRefine(c, r.table, "", ext);
      case InsertStmt(u, gen, now, ns) => InsertRefines(c, r.table, u, gen, now, ns);
      case UpdateStmt(id, p, expected, now, ns) => UpdateRefines(c, r.table, id, p, expected, now, ns);
      case MarkDeletedStmt(id, now) => MarkDeletedRefines(c, r.table, id, now);
    }
  }
}
