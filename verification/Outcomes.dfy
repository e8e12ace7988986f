/** What each whole call answers and leaves behind, column by column. */
module Outcomes {
  import opened Wrappers
  import opened Plates
  import opened Requests
  import opened Users
  import opened Service
  import opened Linearizability
  import opened VehicleSafety
  import V = Vehicles

  // CreateUser: the row of the identity as it is, or a new ACTIVE one holding what was asked for.
  lemma CreateOutcome(cfg: Config, t: Table, r: CreateUserRequest, now: int, gen: string)
    ensures
      var a := AtomicCall(cfg, t, CreateUser(r), now, gen);
      var row := User(gen, r.ext, r.name, r.phone, r.email, Active, 1, now, now);
      if !ValidCreate(cfg.parses, r) then a == Atomic(t, Profile(Err(Validation)))
      else
        && (forall i <- t :: t[i].ext == r.ext ==> a == Atomic(t, Profile(Ok(t[i]))))
        && ((forall i <- t :: t[i].ext != r.ext) && gen !in t ==>
              a.table == t[gen := row] && a.resp == Profile(Ok(row)))
  {
    InsertColumns(t, CreateRow(r), gen, now);
  }

  // UpsertDriver: the same with "Driver" for a missing name and no e-mail.
  lemma UpsertOutcome(cfg: Config, t: Table, r: UpsertDriverRequest, now: int, gen: string)
    ensures
      var a := AtomicCall(cfg, t, UpsertDriver(r), now, gen);
      var name := if r.name == "" then "Driver" else r.name;
      var row := User(gen, r.ext, name, r.phone, "", Active, 1, now, now);
      if !ValidUpsert(r) then a == Atomic(t, Profile(Err(Validation)))
      else
        && (forall i <- t :: t[i].ext == r.ext ==> a == Atomic(t, Profile(Ok(t[i]))))
        && ((forall i <- t :: t[i].ext != r.ext) && gen !in t ==>
              a.table == t[gen := row] && a.resp == Profile(Ok(row)))
  {
    InsertColumns(t, DriverRow(r), gen, now);
  }

  // UpdateUser: a conflict unless the row is there, at the expected version and not DELETED; else each
  // column asked for is replaced and no other.
  lemma UpdateOutcome(cfg: Config, t: Table, r: UpdateUserRequest, now: int, gen: string)
    ensures
      var a, id := AtomicCall(cfg, t, UpdateUser(r), now, gen), r.id;
      if !ValidUpdate(cfg.parses, r) then a == Atomic(t, Profile(Err(Validation)))
      else if id !in t || t[id].version != r.expected || t[id].status == Deleted then
        a == Atomic(t, Profile(Err(Conflict)))
      else
        var row := User(id, t[id].ext,
                        if r.patch.name != "" then r.patch.name else t[id].name,
                        if r.patch.phone != "" then r.patch.phone else t[id].phone,
                        if r.patch.email != "" then r.patch.email else t[id].email,
                        t[id].status, t[id].version + 1, t[id].createdAt, now);
        a.table == t[id := row] && a.resp == Profile(Ok(row))
  {
    UpdateColumns(t, r.id, r.patch, r.expected, now);
  }

  // DeleteUser: not found, nothing to do, or the row DELETED at its next version.
  lemma DeleteOutcome(cfg: Config, t: Table, id: string, now: int, gen: string)
    ensures
      var a := AtomicCall(cfg, t, DeleteUser(id), now, gen);
      if id !in t then a == Atomic(t, Removal(Err(NotFound)))
      else if t[id].status == Deleted then a == Atomic(t, Removal(Ok(())))
      else
        var row := User(id, t[id].ext, t[id].name, t[id].phone, t[id].email, Deleted,
                        t[id].version + 1, t[id].createdAt, now);
        a.table == t[id := row] && a.resp == Removal(Ok(()))
  {
    MarkDeletedColumns(t, id, now);
  }

  // RegisterVehicle: the driver's row of that plate with the new type and default flag, or a new row.
  lemma RegisterOutcome(users: Table, t: V.Garage, r: RegisterVehicleRequest, now: int, gen: string)
    ensures
      var o, plate := AtomicRegister(users, t, r, now, gen), Normalise(r.nopol);
      if !ValidVehicle(r) then o == V.Outcome(t, Err(Validation))
      else if r.driver !in users then o == V.Outcome(t, Err(NotFound))
      else
        && (forall i <- t :: t[i].driver == r.driver && t[i].nopol == plate ==>
              var row := V.Vehicle(i, r.driver, plate, r.kind, r.isDefault, t[i].createdAt);
              o.garage == t[i := row] && o.result == Ok(row))
        && ((forall i <- t :: t[i].driver == r.driver ==> t[i].nopol != plate) && gen !in t ==>
              var row := V.Vehicle(gen, r.driver, plate, r.kind, r.isDefault, now);
              o.garage == t[gen := row] && o.result == Ok(row))
  {
  }
}
