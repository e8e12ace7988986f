/**
  The use cases as step machines over the shared stores: one SQL statement or one Redis command
  is one step. A program counter names the statement a call runs next and what it remembers.
 */
module Service {
  import opened Wrappers
  import opened Plates
  import opened Requests
  import opened Users
  import V = Vehicles

  // userCacheTTL, with the clock counting milliseconds.
  const USER_CACHE_TTL: int := 5 * 60 * 1000

  datatype Entry = Entry(user: User, expires: int)

  function CacheKey(id: string): string {
    "user:" + id
  }

  lemma CacheKeyInjective(a: string, b: string)
    requires CacheKey(a) == CacheKey(b)
    ensures a == b
    ensures CacheKey(a) == "user:" + a
  {
    assert CacheKey(a)[5..] == a && CacheKey(b)[5..] == b;
  }

  // NewUserUsecase's choices: whether there is a cache, and the mail parser it links to.
  datatype Config = Config(cacheOn: bool, parses: AddressParser)

  datatype Shared = Shared(users: Table, garage: V.Garage, cache: map<string, Entry>)

  datatype Call =
    | CreateUser(create: CreateUserRequest)
    | UpsertDriver(upsert: UpsertDriverRequest)
    | UpdateUser(update: UpdateUserRequest)
    | DeleteUser(id: string)
    | GetUserByID(id: string)
    | RegisterVehicle(vehicle: RegisterVehicleRequest)

  datatype Response =
    | Profile(user: Result<User>)
    | Removal(done: Result<()>)
    | Plate(vehicle: Result<V.Vehicle>)

  datatype Pc =
    | Lookup(row: NewUser)
    | Inserting(row: NewUser)
    | Refetch(row: NewUser)
    | Updating(update: UpdateUserRequest)
    | Deleting(id: string)
    | Checking(id: string)
    | Invalidate(id: string, resp: Response)
    | CacheGet(id: string)
    | Selecting(id: string)
    | CacheSet(id: string, user: User)
    | CheckingDriver(vehicle: RegisterVehicleRequest)
    | Registering(vehicle: RegisterVehicleRequest)
    | Done(resp: Response)

  // Validation happens before the first statement.
  function Start(cfg: Config, call: Call): Pc {
    match call
    case CreateUser(r) =>
      if ValidCreate(cfg.parses, r) then Lookup(CreateRow(r)) else Done(Profile(Err(Validation)))
    case UpsertDriver(r) =>
      if ValidUpsert(r) then Lookup(DriverRow(r)) else Done(Profile(Err(Validation)))
    case UpdateUser(r) =>
      if ValidUpdate(cfg.parses, r) then Updating(r) else Done(Profile(Err(Validation)))
    case DeleteUser(id) => Deleting(id)
    case GetUserByID(id) => if cfg.cacheOn then CacheGet(id) else Selecting(id)
    case RegisterVehicle(r) =>
      if ValidVehicle(r) then CheckingDriver(r) else Done(Plate(Err(Validation)))
  }

  datatype Effect = Effect(shared: Shared, pc: Pc)

  function Finish(cfg: Config, id: string, resp: Response): Pc {
    if cfg.cacheOn then Invalidate(id, resp) else Done(resp)
  }

  function NewVehicle(r: RegisterVehicleRequest): V.NewVehicle {
    V.NewVehicle(r.driver, Normalise(r.nopol), r.kind, r.isDefault)
  }

  // One statement or command. gen is the id the database would generate; lost says that the
  // Redis command of this step fails.
  function Exec(cfg: Config, sh: Shared, pc: Pc, now: int, gen: string, lost: bool): Effect {
    match pc
    case Lookup(row) =>
      var r := SelectByExt(sh.users, row.ext);
      Effect(sh, if r.Ok? then Done(Profile(r)) else Inserting(row))
    case Inserting(row) =>
      var o := Insert(sh.users, row, gen, now);
      Effect(sh.(users := o.table),
             if o.result == Err(Conflict) then Refetch(row) else Done(Profile(o.result)))
    case Refetch(row) => Effect(sh, Done(Profile(SelectByExt(sh.users, row.ext))))
    case Updating(r) =>
      var o := Update(sh.users, r.id, r.patch, r.expected, now);
      Effect(sh.(users := o.table),
             if o.result.Ok? then Finish(cfg, o.result.value.id, Profile(o.result))
             else Done(Profile(o.result)))
    case Deleting(id) =>
      Effect(sh.(users := MarkDeleted(sh.users, id, now)),
             if Live(sh.users, id) then Finish(cfg, id, Removal(Ok(()))) else Checking(id))
    case Checking(id) =>
      Effect(sh, if id in sh.users then Finish(cfg, id, Removal(Ok(())))
                 else Done(Removal(Err(NotFound))))
    case Invalidate(id, resp) =>
      Effect(if lost then sh else sh.(cache := sh.cache - {CacheKey(id)}), Done(resp))
    case CacheGet(id) =>
      var key := CacheKey(id);
      Effect(sh, if !lost && key in sh.cache && now < sh.cache[key].expires
                 then Done(Profile(Ok(sh.cache[key].user)))
                 else Selecting(id))
    case Selecting(id) =>
      var r := SelectById(sh.users, id);
      Effect(sh, if r.Ok? && cfg.cacheOn then CacheSet(id, r.value) else Done(Profile(r)))
    case CacheSet(id, user) =>
      Effect(if lost then sh
             else sh.(cache := sh.cache[CacheKey(id) := Entry(user, now + USER_CACHE_TTL)]),
             Done(Profile(Ok(user))))
    case CheckingDriver(r) =>
      Effect(sh, if r.driver in sh.users then Registering(r) else Done(Plate(Err(NotFound))))
    case Registering(r) =>
      var o := V.Register(sh.garage, sh.users.Keys, NewVehicle(r), gen, now);
      Effect(sh.(garage := o.garage), Done(Plate(o.result)))
    case Done(_) => Effect(sh, pc)
  }

  // The most statements a call can still run.
  function Remaining(pc: Pc): nat {
    match pc
    case Lookup(_) => 3
    case Inserting(_) => 2
    case Refetch(_) => 1
    case Updating(_) => 2
    case Deleting(_) => 3
    case Checking(_) => 2
    case Invalidate(_, _) => 1
    case CacheGet(_) => 3
    case Selecting(_) => 2
    case CacheSet(_, _) => 1
    case CheckingDriver(_) => 2
    case Registering(_) => 1
    case Done(_) => 0
  }

  // The three statements that write the user table.
  predicate WritesUsers(pc: Pc) {
    pc.Inserting? || pc.Updating? || pc.Deleting?
  }

  lemma ExecLeavesUsers(cfg: Config, sh: Shared, pc: Pc, now: int, gen: string, lost: bool)
    requires !WritesUsers(pc)
    ensures Exec(cfg, sh, pc, now, gen, lost).shared.users == sh.users
  {
  }

  lemma ExecAdvances(cfg: Config, sh: Shared, pc: Pc, now: int, gen: string, lost: bool)
    requires !pc.Done?
    ensures Remaining(Exec(cfg, sh, pc, now, gen, lost).pc) < Remaining(pc)
  {
  }

  // Every statement brings its call closer to an answer, whatever the stores hold, and changes
  // the user table only as Evolves allows.
  lemma ExecProgress(cfg: Config, sh: Shared, pc: Pc, now: int, gen: string, lost: bool)
    requires !pc.Done?
    ensures Remaining(Exec(cfg, sh, pc, now, gen, lost).pc) < Remaining(pc)
    ensures Evolves(sh.users, Exec(cfg, sh, pc, now, gen, lost).shared.users)
  {
    ExecAdvances(cfg, sh, pc, now, gen, lost);
    var t := sh.users;
    match pc
    case Inserting(row) => InsertEvolves(t, row, gen, now);
    case Updating(r) => UpdateEvolves(t, r.id, r.patch, r.expected, now);
    case Deleting(id) => MarkDeletedEvolves(t, id, now);
    case _ => ExecLeavesUsers(cfg, sh, pc, now, gen, lost);
  }
}
