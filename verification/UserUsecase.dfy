/** The use cases as an object over its repositories and an optional cache. */
module UserUsecases {
  import opened Wrappers
  import opened Plates
  import opened Requests
  import opened Users
  import opened Service
  import opened Linearizability
  import opened Sequential
  import opened Deletion
  import opened UserRepositories
  import opened VehicleRepositories
  import opened MockCaches
  import opened VehicleSafety
  import opened Outcomes
  import V = Vehicles

  // json.Marshal, which may refuse, and json.Unmarshal, which may fail.
  datatype Codec = Codec(marshal: User -> Option<string>, unmarshal: string -> Option<User>)

  ghost predicate RoundTrips(c: Codec) {
    forall u :: c.marshal(u).Some? ==> c.marshal(u).value != "" && c.unmarshal(c.marshal(u).value) == Some(u)
  }

  // The cache entries a reader can use; empty or unreadable texts count as absent.
  function Usable(c: Codec, store: map<string, Item>): map<string, Entry> {
    map k | k in store && store[k].text != "" && c.unmarshal(store[k].text).Some? ::
      Entry(c.unmarshal(store[k].text).value, store[k].expires)
  }

  lemma UsableSet(c: Codec, store: map<string, Item>, key: string, u: User, expires: int)
    requires RoundTrips(c) && c.marshal(u).Some?
    ensures Usable(c, store[key := Item(c.marshal(u).value, expires)]) == Usable(c, store)[key := Entry(u, expires)]
  {
  }

  // A text that is present, alive and readable is a usable entry that has not expired.
  lemma UsableGet(c: Codec, store: map<string, Item>, key: string, now: int)
    ensures
      var raw := if Alive(true, store, key, now) then Some(store[key].text) else None;
      var hit := if raw.Some? && raw.value != "" then c.unmarshal(raw.value) else None;
      var entries := Usable(c, store);
      hit == if key in entries && now < entries[key].expires then Some(entries[key].user) else None
  {
  }

  class UserUsecase {
    const repo: UserRepository
    const vehicles: VehicleRepository
    const cache: MockCache?
    const parses: AddressParser
    const codec: Codec

    constructor (repo: UserRepository, vehicles: VehicleRepository, cache: MockCache?, parses: AddressParser,
                 codec: Codec)
      ensures this.repo == repo && this.vehicles == vehicles && this.cache == cache
      ensures this.parses == parses && this.codec == codec
    {
      this.repo, this.vehicles, this.cache, this.parses, this.codec := repo, vehicles, cache, parses, codec;
    }

    ghost predicate Valid() {
      repo.Valid() && RoundTrips(codec) && (cache != null ==> cache.expiring)
    }

    function Cfg(): Config {
      Config(cache != null, parses)
    }

    // The usable cache entries.
    ghost function Entries(): map<string, Entry>
      reads if cache != null then {cache} else {}
    {
      if cache != null then Usable(codec, cache.store) else map[]
    }

    ghost function Table(): Table
      reads repo
    {
      repo.Contents()
    }

    // However others interleave, the call returns a profile of the requested identity and takes
    // effect in one piece; alone, it is exactly the indivisible call.
    method CreateUser(req: CreateUserRequest, now: int, gen: string, ghost quiet: bool)
      returns (r: Result<User>, ghost at: Users.Table)
      requires Valid() && gen !in Table()
      modifies repo
      ensures !ValidCreate(parses, req) ==> r == Err(Validation) && Table() == old(Table())
      ensures ValidCreate(parses, req) ==>
                r.Ok? && r.value.ext == req.ext && TookEffectAt(old(Table()), at, Table(), CreateRow(req), gen, now, r)
      ensures ValidCreate(parses, req) ==>
                forall i <- at :: at[i].ext == req.ext ==> r == Ok(at[i]) && Table() == at
      ensures ValidCreate(parses, req) && (forall i <- at :: at[i].ext != req.ext) ==>
                && r == Ok(User(gen, req.ext, req.name, req.phone, req.email, Active, 1, now, now))
                && Table() == at[gen := r.value]
      ensures quiet ==> Atomic(Table(), Profile(r)) == AtomicCall(Cfg(), old(Table()), Call.CreateUser(req), now, gen)
    {
      at := Table();
      if !ValidCreate(parses, req) {
        return Err(Validation), at;
      }
      r := repo.GetByExternalID(req.ext);
      if r.Ok? { return; }

      repo.Others(quiet, gen);
      at := Table();
      r := repo.Create(NewUser("", req.ext, req.name, req.phone, req.email, Active), gen, now);
      InsertEvolves(at, CreateRow(req), gen, now);
      if r == Err(Conflict) {
        ghost var conflicted := Table();
        repo.Others(quiet, gen);
        TakenForever(conflicted, Table(), req.ext);
        EvolvesTransitive(old(Table()), conflicted, Table());
        at := Table();
        r := repo.GetByExternalID(req.ext);
      }
    }

    method UpsertDriver(req: UpsertDriverRequest, now: int, gen: string, ghost quiet: bool)
      returns (r: Result<User>, ghost at: Users.Table)
      requires Valid() && gen !in Table()
      modifies repo
      ensures !ValidUpsert(req) ==> r == Err(Validation) && Table() == old(Table())
      ensures ValidUpsert(req) ==>
                r.Ok? && r.value.ext == req.ext && TookEffectAt(old(Table()), at, Table(), DriverRow(req), gen, now, r)
      ensures ValidUpsert(req) ==>
                forall i <- at :: at[i].ext == req.ext ==> r == Ok(at[i]) && Table() == at
      ensures ValidUpsert(req) && (forall i <- at :: at[i].ext != req.ext) ==>
                && r == Ok(User(gen, req.ext, if req.name == "" then "Driver" else req.name, req.phone, "", Active,
                                1, now, now))
                && Table() == at[gen := r.value]
      ensures quiet ==> Atomic(Table(), Profile(r)) == AtomicCall(Cfg(), old(Table()), Call.UpsertDriver(req), now, gen)
    {
      at := Table();
      if !ValidUpsert(req) {
        return Err(Validation), at;
      }
      r, at := repo.GetOrCreateByMSISDN(req.phone, req.ext, req.name, now, gen, quiet);
    }

    // A write, then the DEL of the key of the row it changed, unless the command fails.
    method UpdateUser(req: UpdateUserRequest, now: int, delFails: bool) returns (r: Result<User>)
      requires Valid()
      modifies repo, if cache != null then {cache} else {}
      ensures Atomic(Table(), Profile(r)) == AtomicCall(Cfg(), old(Table()), Call.UpdateUser(req), now, "")
      ensures var t, id := old(Table()), req.id;
              if !ValidUpdate(parses, req) then r == Err(Validation) && Table() == t
              else if id !in t || t[id].version != req.expected || t[id].status == Deleted
              then r == Err(Conflict) && Table() == t
              else r.Ok? && Updated(t[id], req.patch, now, r.value) && Table() == t[id := r.value]
      ensures cache != null ==>
                cache.store == if r.Ok? && !delFails then old(cache.store) - {"user:" + req.id} else old(cache.store)
    {
      if !ValidUpdate(parses, req) {
        return Err(Validation);
      }
      r := repo.Update(req.id, req.patch, req.expected, now);
      if r.Err? { return; }
      if cache != null && !delFails {
        cache.Del([CacheKey(r.value.id)]);
        assert Members([CacheKey(r.value.id)]) == {CacheKey(req.id)};
      }
    }

    method DeleteUser(id: string, now: int, delFails: bool, ghost quiet: bool) returns (r: Result<()>)
      requires Valid()
      modifies repo, if cache != null then {cache} else {}
      ensures id in old(Table()) ==> r == Ok(()) && IsDeleted(Table(), id)
      ensures id in old(Table()) && old(Table())[id].status != Deleted ==>
                && id in Table() && Marked(old(Table())[id], now, Table()[id])
                && Table() == old(Table())[id := Table()[id]]
      ensures quiet ==> Atomic(Table(), Removal(r)) == AtomicCall(Cfg(), old(Table()), Call.DeleteUser(id), now, "")
      ensures cache != null ==>
                cache.store == if r.Ok? && !delFails then old(cache.store) - {"user:" + id} else old(cache.store)
    {
      r := repo.SoftDelete(id, now, quiet);
      if r.Err? { return; }
      if cache != null && !delFails {
        cache.Del([CacheKey(id)]);
        assert Members([CacheKey(id)]) == {CacheKey(id)};
      }
    }

    // Cache, else table, else not found. A row that json.Marshal refuses counts as a SET that fails.
    method GetUserByID(id: string, now: int, getFails: bool, setFails: bool) returns (r: Result<User>)
      requires Valid()
      modifies if cache != null then {cache} else {}
      ensures
        var refused := id in Table() && codec.marshal(Table()[id]).None?;
        var f := Faults(getFails, setFails || refused, false);
        ReadThrough(Cfg(), Table(), old(Entries()), id, now, f) == Read(Entries(), r)
      ensures cache != null && cache.store != old(cache.store) ==>
                && id in Table() && r == Ok(Table()[id]) && codec.marshal(r.value).Some?
                && cache.store == old(cache.store)["user:" + id := Item(codec.marshal(r.value).value, now + 300_000)]
    {
      var cacheKey := CacheKey(id);
      if cache != null {
        if !getFails {
          var raw := cache.Get(cacheKey, now);
          UsableGet(codec, cache.store, cacheKey, now);
          if raw.Some? && raw.value != "" {
            var cached := codec.unmarshal(raw.value);
            if cached.Some? {
              return Ok(cached.value);
            }
          }
        }
      }
      r := repo.GetByID(id);
      if r.Err? { return; }
      if cache != null {
        var blob := codec.marshal(r.value);
        if blob.Some? && !setFails {
          ghost var store := cache.store;
          cache.Set(cacheKey, Blob(blob.value), USER_CACHE_TTL, now);
          UsableSet(codec, store, cacheKey, r.value, now + USER_CACHE_TTL);
        }
      }
    }

    // Validate, find the driver, upsert. Whatever runs in between, the call registers in one piece at
    // its last statement, and the driver it found is still there.
    method RegisterVehicle(req: RegisterVehicleRequest, now: int, gen: string, ghost quiet: bool)
      returns (r: Result<V.Vehicle>, ghost at: V.Garage)
      modifies repo, vehicles
      ensures V.Outcome(vehicles.rows, r) == AtomicRegister(Table(), at, req, now, gen)
      ensures r.Ok? ==>
                && r.value.driver == req.driver && r.value.nopol == Normalise(req.nopol)
                && r.value.kind == req.kind && r.value.isDefault == req.isDefault
                && r.value.createdAt == (if r.value.id in at then at[r.value.id].createdAt else now)
                && vehicles.rows == at[r.value.id := r.value]
      ensures r.Err? ==> vehicles.rows == at
      ensures Evolves(old(Table()), Table()) && V.KeepsVehicles(old(vehicles.rows), at)
      ensures r != Err(ForeignKey)
      ensures quiet ==> Table() == old(Table()) && at == old(vehicles.rows)
    {
      at := vehicles.rows;
      if !ValidVehicle(req) {
        return Err(Validation), at;
      }
      var driver := repo.GetByID(req.driver);
      if driver.Err? {
        return Err(driver.error), at;
      }
      repo.Others(quiet, "");
      vehicles.Others(quiet);
      at := vehicles.rows;
      r := vehicles.Register(NewVehicle(req), repo.rows.Keys, gen, now);
    }
  }
}
