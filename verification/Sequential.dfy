/**
  Calls that do not overlap. The cache then cannot be noticed, and repeating a call that
  already succeeded does no harm.
 */
module Sequential {
  import opened Wrappers
  import opened Requests
  import opened Users
  import opened Service
  import opened Linearizability
  import opened Deletion

  // Which cache commands of a call fail.
  datatype Faults = Faults(get: bool, set_: bool, del: bool)

  predicate Lost(f: Faults, pc: Pc) {
    (pc.CacheGet? && f.get) || (pc.CacheSet? && f.set_) || (pc.Invalidate? && f.del)
  }

  datatype Answered = Answered(shared: Shared, resp: Response)

  // A call running to its end with nobody else around.
  function Solo(cfg: Config, sh: Shared, pc: Pc, now: int, gen: string, f: Faults): Answered
    decreases Remaining(pc)
  {
    if pc.Done? then Answered(sh, pc.resp)
    else
      var x := Exec(cfg, sh, pc, now, gen, Lost(f, pc));
      ExecProgress(cfg, sh, pc, now, gen, Lost(f, pc));
      Solo(cfg, x.shared, x.pc, now, gen, f)
  }

  // A call with its time, the id the database would generate, its cache faults, and the entries
  // that Redis dropped since the previous call.
  datatype Job = Job(call: Call, now: int, gen: string, faults: Faults, evicted: set<string>)

  function RunJob(cfg: Config, sh: Shared, j: Job): Answered {
    Solo(cfg, sh.(cache := sh.cache - j.evicted), Start(cfg, j.call), j.now, j.gen, j.faults)
  }

  datatype Report = Report(shared: Shared, resps: seq<Response>)

  function RunAll(cfg: Config, sh: Shared, js: seq<Job>): Report
    decreases |js|
  {
    if js == [] then Report(sh, [])
    else
      var a := RunJob(cfg, sh, js[0]);
      var r := RunAll(cfg, a.shared, js[1..]);
      Report(r.shared, [a.resp] + r.resps)
  }

  // ----- The cache cannot be noticed -----

  predicate EntryCurrent(key: string, e: Entry, users: Table) {
    key == CacheKey(e.user.id) && e.user.id in users && users[e.user.id] == e.user
  }

  // An entry that a read at or after since could hit holds the current row.
  predicate EntryHarmless(key: string, e: Entry, users: Table, since: int) {
    since < e.expires ==> EntryCurrent(key, e, users)
  }

  ghost predicate CacheCurrent(sh: Shared, since: int) {
    forall key <- sh.cache :: EntryHarmless(key, sh.cache[key], sh.users, since)
  }

  // No entry can do harm, except perhaps the one about to be deleted.
  ghost predicate Coherent(sh: Shared, pc: Pc, since: int) {
    && (forall key <- sh.cache ::
          (pc.Invalidate? && key == CacheKey(pc.id)) || EntryHarmless(key, sh.cache[key], sh.users, since))
    && (pc.CacheSet? ==> pc.id in sh.users && sh.users[pc.id] == pc.user)
  }

  // The same call with and without a cache: the same statement, or a cache command that the
  // other does not have.
  predicate Matches(on: Pc, off: Pc) {
    match on
    case Invalidate(_, resp) => off == Done(resp)
    case CacheSet(_, u) => off == Done(Profile(Ok(u)))
    case CacheGet(id) => off == Selecting(id)
    case _ => off == on
  }

  // A change to one row spoils at most the entry of that row.
  lemma OthersCurrent(cache: map<string, Entry>, t: Table, t': Table, id: string, since: int)
    requires forall key <- cache :: EntryHarmless(key, cache[key], t, since)
    requires forall i <- t :: i != id ==> i in t' && t'[i] == t[i]
    ensures forall key <- cache :: key == CacheKey(id) || EntryHarmless(key, cache[key], t', since)
  {
    forall key | key in cache && key != CacheKey(id) ensures EntryHarmless(key, cache[key], t', since) {
      assert EntryHarmless(key, cache[key], t, since);
    }
  }

  lemma CoherentStep(cfg: Config, sh: Shared, pc: Pc, now: int, gen: string, f: Faults, since: int)
    requires cfg.cacheOn && Coherent(sh, pc, since) && !f.del && !pc.Done?
    ensures
      var x := Exec(cfg, sh, pc, now, gen, Lost(f, pc));
      Coherent(x.shared, x.pc, since)
  {
    match pc
    case Inserting(row) =>
    case Updating(r) =>
      OthersCurrent(sh.cache, sh.users, Update(sh.users, r.id, r.patch, r.expected, now).table, r.id, since);
    case Deleting(id) => OthersCurrent(sh.cache, sh.users, MarkDeleted(sh.users, id, now), id, since);
    case CacheSet(id, u) =>
    case _ =>
  }

  // The same statement on the same tables, with and without a cache.
  lemma SameStatement(on: Config, off: Config, a: Shared, b: Shared, pc: Pc, now: int, gen: string, f: Faults)
    requires on.cacheOn && off == on.(cacheOn := false) && Matches(pc, pc) && !pc.Done?
    requires a.users == b.users && a.garage == b.garage
    ensures
      var x, y := Exec(on, a, pc, now, gen, Lost(f, pc)), Exec(off, b, pc, now, gen, Lost(f, pc));
      x.shared.users == y.shared.users && x.shared.garage == y.shared.garage && Matches(x.pc, y.pc)
  {
  }

  lemma {:induction false} SoloSame(on: Config, off: Config, a: Shared, b: Shared, pa: Pc, pb: Pc,
                                    now: int, gen: string, f: Faults, since: int)
    requires on.cacheOn && off == on.(cacheOn := false) && !f.del && since <= now
    requires a.users == b.users && a.garage == b.garage && Coherent(a, pa, since) && Matches(pa, pb)
    ensures
      var x, y := Solo(on, a, pa, now, gen, f), Solo(off, b, pb, now, gen, f);
      && x.resp == y.resp && x.shared.users == y.shared.users && x.shared.garage == y.shared.garage
      && Coherent(x.shared, Done(x.resp), since)
    decreases Remaining(pa)
  {
    if !pa.Done? {
      CoherentStep(on, a, pa, now, gen, f, since);
      ExecProgress(on, a, pa, now, gen, Lost(f, pa));
      var x := Exec(on, a, pa, now, gen, Lost(f, pa));
      if pa == pb {
        ExecProgress(off, b, pb, now, gen, Lost(f, pb));
        SameStatement(on, off, a, b, pa, now, gen, f);
        var y := Exec(off, b, pb, now, gen, Lost(f, pb));
        SoloSame(on, off, x.shared, y.shared, x.pc, y.pc, now, gen, f, since);
      } else if x.pc.Done? && pa.CacheGet? {
        CacheKeyInjective(pa.id, x.pc.resp.user.value.id);
      } else {
        SoloSame(on, off, x.shared, b, x.pc, pb, now, gen, f, since);
      }
    }
  }

  predicate DelsSucceedFrom(js: seq<Job>, since: int) {
    forall j <- js :: since <= j.now && !j.faults.del
  }

  // Whatever GETs and SETs fail and whatever entries disappear, calls that do not overlap and whose
  // DELs succeed answer exactly as they would with no cache, and leave the same tables.
  lemma {:induction false} CacheUnobservable(on: Config, off: Config, a: Shared, b: Shared, js: seq<Job>, since: int)
    requires on.cacheOn && off == on.(cacheOn := false) && DelsSucceedFrom(js, since)
    requires a.users == b.users && a.garage == b.garage && CacheCurrent(a, since)
    ensures RunAll(on, a, js).resps == RunAll(off, b, js).resps
    ensures RunAll(on, a, js).shared.users == RunAll(off, b, js).shared.users
    ensures RunAll(on, a, js).shared.garage == RunAll(off, b, js).shared.garage
    decreases |js|
  {
    if js != [] {
      var j := js[0];
      var a', b' := a.(cache := a.cache - j.evicted), b.(cache := b.cache - j.evicted);
      SoloSame(on, off, a', b', Start(on, j.call), Start(off, j.call), j.now, j.gen, j.faults, since);
      CacheUnobservable(on, off, RunJob(on, a, j).shared, RunJob(off, b, j).shared, js[1..], since);
    }
  }

  // ----- Exactly when it can be noticed -----

  // Every entry sits under the key of the row it holds; a SET puts it nowhere else.
  ghost predicate Keyed(cache: map<string, Entry>) {
    forall key <- cache :: key == CacheKey(cache[key].user.id)
  }

  lemma {:induction false} SoloKeepsKeyed(cfg: Config, sh: Shared, pc: Pc, now: int, gen: string, f: Faults)
    requires Keyed(sh.cache) && (pc.CacheSet? ==> pc.user.id == pc.id)
    ensures Keyed(Solo(cfg, sh, pc, now, gen, f).shared.cache)
    decreases Remaining(pc)
  {
    if !pc.Done? {
      ExecAdvances(cfg, sh, pc, now, gen, Lost(f, pc));
      var x := Exec(cfg, sh, pc, now, gen, Lost(f, pc));
      SoloKeepsKeyed(cfg, x.shared, x.pc, now, gen, f);
    }
  }

  lemma {:induction false} RunAllKeepsKeyed(cfg: Config, sh: Shared, js: seq<Job>)
    requires Keyed(sh.cache)
    ensures Keyed(RunAll(cfg, sh, js).shared.cache)
    decreases |js|
  {
    if js != [] {
      var j := js[0];
      SoloKeepsKeyed(cfg, sh.(cache := sh.cache - j.evicted), Start(cfg, j.call), j.now, j.gen, j.faults);
      RunAllKeepsKeyed(cfg, RunJob(cfg, sh, j).shared, js[1..]);
    }
  }

  // One read of an entry that is alive and out of date tells the two configurations apart.
  lemma StaleEntryIsRead(on: Config, off: Config, a: Shared, b: Shared, key: string, since: int) returns (js: seq<Job>)
    requires on.cacheOn && off == on.(cacheOn := false) && Keyed(a.cache) && a.users == b.users
    requires key in a.cache && !EntryHarmless(key, a.cache[key], a.users, since)
    ensures DelsSucceedFrom(js, since) && RunAll(on, a, js).resps != RunAll(off, b, js).resps
  {
    var id, none := a.cache[key].user.id, Faults(false, false, false);
    var j := Job(GetUserByID(id), since, "", none, {});
    js := [j];
    assert a.cache - {} == a.cache && b.cache - {} == b.cache;
    SoloReadIsReadThrough(on, a, id, since, "", none);
    SoloReadIsReadThrough(off, b, id, since, "", none);
    assert RunJob(on, a, j).resp == Profile(Ok(a.cache[key].user)) != RunJob(off, b, j).resp;
    assert RunAll(on, a, js).resps[0] == RunJob(on, a, j).resp;
    assert RunAll(off, b, js).resps[0] == RunJob(off, b, j).resp;
  }

  // From a given moment on, no calls that do not overlap and whose DELs succeed can tell that
  // there is a cache, exactly when every entry still alive holds the current row.
  lemma CacheNoticedExactly(on: Config, off: Config, a: Shared, b: Shared, since: int)
    requires on.cacheOn && off == on.(cacheOn := false) && Keyed(a.cache)
    requires a.users == b.users && a.garage == b.garage
    ensures (forall js | DelsSucceedFrom(js, since) :: RunAll(on, a, js).resps == RunAll(off, b, js).resps)
            <==> CacheCurrent(a, since)
  {
    if CacheCurrent(a, since) {
      forall js | DelsSucceedFrom(js, since) ensures RunAll(on, a, js).resps == RunAll(off, b, js).resps {
        CacheUnobservable(on, off, a, b, js, since);
      }
    } else {
      var key :| key in a.cache && !EntryHarmless(key, a.cache[key], a.users, since);
      var js := StaleEntryIsRead(on, off, a, b, key, since);
    }
  }

  predicate Success(resp: Response) {
    match resp
    case Profile(r) => r.Ok?
    case Removal(r) => r.Ok?
    case Plate(r) => r.Ok?
  }

  predicate Invalidates(call: Call) {
    call.UpdateUser? || call.DeleteUser?
  }

  function Target(call: Call): string
    requires Invalidates(call)
  {
    if call.UpdateUser? then call.update.id else call.id
  }

  lemma SoloInvalidate(cfg: Config, sh: Shared, id: string, resp: Response, now: int, gen: string, f: Faults)
    ensures
      var cache := if cfg.cacheOn && !f.del then sh.cache - {"user:" + id} else sh.cache;
      Solo(cfg, sh, Finish(cfg, id, resp), now, gen, f) == Answered(sh.(cache := cache), resp)
  {
    SoloStep(cfg, sh, Invalidate(id, resp), now, gen, f);
  }

  lemma SoloUpdate(cfg: Config, sh: Shared, r: UpdateUserRequest, now: int, gen: string, f: Faults)
    requires ValidUpdate(cfg.parses, r)
    ensures
      var o := Update(sh.users, r.id, r.patch, r.expected, now);
      var cache := if cfg.cacheOn && o.result.Ok? && !f.del then sh.cache - {"user:" + r.id} else sh.cache;
      Solo(cfg, sh, Updating(r), now, gen, f) == Answered(Shared(o.table, sh.garage, cache), Profile(o.result))
  {
    SoloStep(cfg, sh, Updating(r), now, gen, f);
    var o := Update(sh.users, r.id, r.patch, r.expected, now);
    SoloInvalidate(cfg, sh.(users := o.table), r.id, Profile(o.result), now, gen, f);
  }

  lemma SoloDelete(cfg: Config, sh: Shared, id: string, now: int, gen: string, f: Faults)
    ensures
      var o := Remove(sh.users, id, now);
      var cache := if cfg.cacheOn && o.result.Ok? && !f.del then sh.cache - {"user:" + id} else sh.cache;
      Solo(cfg, sh, Deleting(id), now, gen, f) == Answered(Shared(o.table, sh.garage, cache), Removal(o.result))
  {
    SoloStep(cfg, sh, Deleting(id), now, gen, f);
    if !Live(sh.users, id) { SoloStep(cfg, sh, Checking(id), now, gen, f); }
    SoloInvalidate(cfg, sh.(users := MarkDeleted(sh.users, id, now)), id, Removal(Ok(())), now, gen, f);
  }

  // The statements of an update or delete, one after another: the indivisible call on the tables, and
  // its one key gone from the cache exactly when it succeeded and the DEL did.
  lemma SoloInvalidates(cfg: Config, sh: Shared, call: Call, now: int, gen: string, f: Faults)
    requires Invalidates(call)
    ensures
      var o := AtomicCall(cfg, sh.users, call, now, gen);
      var cache := if cfg.cacheOn && Success(o.resp) && !f.del then sh.cache - {"user:" + Target(call)} else sh.cache;
      Solo(cfg, sh, Start(cfg, call), now, gen, f) == Answered(Shared(o.table, sh.garage, cache), o.resp)
  {
    match call
    case UpdateUser(r) => if ValidUpdate(cfg.parses, r) { SoloUpdate(cfg, sh, r, now, gen, f); }
    case DeleteUser(id) => SoloDelete(cfg, sh, id, now, gen, f);
  }

  // The answer never shows that a DEL was lost. Later calls can, exactly when an entry of the row was
  // there, had not expired, and the call really changed the row.
  lemma LostDelNoticedExactly(on: Config, off: Config, a: Shared, b: Shared, j: Job)
    requires on.cacheOn && off == on.(cacheOn := false) && Keyed(a.cache) && CacheCurrent(a, j.now)
    requires a.users == b.users && a.garage == b.garage
    requires Invalidates(j.call) && j.faults.del && Success(RunJob(on, a, j).resp)
    ensures
      var x, y, id := RunJob(on, a, j), RunJob(off, b, j), Target(j.call);
      && x.resp == y.resp && x.shared.users == y.shared.users && x.shared.garage == y.shared.garage
      && id in a.users && id in x.shared.users
      && ((exists js | DelsSucceedFrom(js, j.now) ::
             RunAll(on, x.shared, js).resps != RunAll(off, y.shared, js).resps)
          <==> (CacheKey(id) in a.cache - j.evicted && j.now < a.cache[CacheKey(id)].expires
                && x.shared.users[id] != a.users[id]))
  {
    var x, y, id := RunJob(on, a, j), RunJob(off, b, j), Target(j.call);
    LostDelLeaves(on, off, a, b, j);
    CacheNoticedExactly(on, off, x.shared, y.shared, j.now);
    OneEntrySpoiled(a.(cache := a.cache - j.evicted), x.shared.users, id, j.now);
  }

  lemma LostDelLeaves(on: Config, off: Config, a: Shared, b: Shared, j: Job)
    requires off == on.(cacheOn := false) && CacheCurrent(a, j.now)
    requires a.users == b.users && a.garage == b.garage
    requires Invalidates(j.call) && j.faults.del && Success(RunJob(on, a, j).resp)
    ensures
      var x, y, id := RunJob(on, a, j), RunJob(off, b, j), Target(j.call);
      var sh := a.(cache := a.cache - j.evicted);
      && x.resp == y.resp && x.shared.users == y.shared.users && y.shared.garage == a.garage
      && x.shared == sh.(users := x.shared.users)
      && id in a.users && id in x.shared.users
      && forall key <- sh.cache :: key == CacheKey(id) || EntryHarmless(key, sh.cache[key], x.shared.users, j.now)
  {
    var x, id := RunJob(on, a, j), Target(j.call);
    var sh := a.(cache := a.cache - j.evicted);
    SoloInvalidates(on, sh, j.call, j.now, j.gen, j.faults);
    SoloInvalidates(off, b.(cache := b.cache - j.evicted), j.call, j.now, j.gen, j.faults);
    OthersCurrent(sh.cache, a.users, x.shared.users, id, j.now);
  }

  lemma OneEntrySpoiled(sh: Shared, t': Table, id: string, since: int)
    requires CacheCurrent(sh, since) && id in sh.users && id in t'
    requires forall key <- sh.cache :: key == CacheKey(id) || EntryHarmless(key, sh.cache[key], t', since)
    ensures CacheCurrent(sh.(users := t'), since) <==>
              !(CacheKey(id) in sh.cache && since < sh.cache[CacheKey(id)].expires && t'[id] != sh.users[id])
  {
    var key := CacheKey(id);
    if key in sh.cache && since < sh.cache[key].expires {
      assert EntryHarmless(key, sh.cache[key], sh.users, since);
      CacheKeyInjective(sh.cache[key].user.id, id);
    }
  }

  // A DEL that fails can be noticed: read, update, read again, and the old row comes back.
  lemma LostDelIsNoticed(parses: AddressParser, u: User)
    requires u.status == Active && !Blank(u.id)
    ensures
      var none := Faults(false, false, false);
      var update := UpdateUserRequest(u.id, Patch("New", "", ""), u.version);
      var js := [Job(GetUserByID(u.id), 0, "", none, {}),
                 Job(UpdateUser(update), 1, "", none.(del := true), {}),
                 Job(GetUserByID(u.id), 2, "", none, {})];
      var sh := Shared(map[u.id := u], map[], map[]);
      var v := u.(name := "New", version := u.version + 1, updatedAt := 1);
      && RunAll(Config(true, parses), sh, js).resps == [Profile(Ok(u)), Profile(Ok(v)), Profile(Ok(u))]
      && RunAll(Config(false, parses), sh, js).resps == [Profile(Ok(u)), Profile(Ok(v)), Profile(Ok(v))]
  {
    var none := Faults(false, false, false);
    var update := UpdateUserRequest(u.id, Patch("New", "", ""), u.version);
    var sh := Shared(map[u.id := u], map[], map[]);
    ReadUpdateRead(Config(true, parses), sh, u, update, none);
    ReadUpdateRead(Config(false, parses), sh, u, update, none);
  }

  lemma ReadUpdateRead(cfg: Config, sh: Shared, u: User, update: UpdateUserRequest, none: Faults)
    requires u.status == Active && !Blank(u.id) && none == Faults(false, false, false)
    requires update == UpdateUserRequest(u.id, Patch("New", "", ""), u.version)
    requires sh == Shared(map[u.id := u], map[], map[])
    ensures
      var v := u.(name := "New", version := u.version + 1, updatedAt := 1);
      var js := [Job(GetUserByID(u.id), 0, "", none, {}),
                 Job(UpdateUser(update), 1, "", none.(del := true), {}),
                 Job(GetUserByID(u.id), 2, "", none, {})];
      RunAll(cfg, sh, js).resps == [Profile(Ok(u)), Profile(Ok(v)), Profile(Ok(if cfg.cacheOn then u else v))]
  {
    var v := u.(name := "New", version := u.version + 1, updatedAt := 1);
    var cache := if cfg.cacheOn then map[CacheKey(u.id) := Entry(u, USER_CACHE_TTL)] else map[];
    var s1, s2 := Shared(map[u.id := u], map[], cache), Shared(map[u.id := v], map[], cache);
    var j1, j2, j3 := Job(GetUserByID(u.id), 0, "", none, {}),
                      Job(UpdateUser(update), 1, "", none.(del := true), {}),
                      Job(GetUserByID(u.id), 2, "", none, {});
    assert sh.cache - {} == sh.cache && cache - {} == cache;
    SoloReadIsReadThrough(cfg, sh, u.id, 0, "", none);
    assert RunJob(cfg, sh, j1) == Answered(s1, Profile(Ok(u)));
    SoloInvalidates(cfg, s1, j2.call, 1, "", j2.faults);
    assert s1.users[u.id := v] == s2.users;
    assert RunJob(cfg, s1, j2) == Answered(s2, Profile(Ok(v)));
    SoloReadIsReadThrough(cfg, s2, u.id, 2, "", none);
    assert RunJob(cfg, s2, j3).resp == Profile(Ok(if cfg.cacheOn then u else v));
    RunThree(cfg, sh, j1, j2, j3);
  }

  lemma RunThree(cfg: Config, sh: Shared, i: Job, j: Job, k: Job)
    ensures
      var a := RunJob(cfg, sh, i);
      var b := RunJob(cfg, a.shared, j);
      RunAll(cfg, sh, [i, j, k]).resps == [a.resp, b.resp, RunJob(cfg, b.shared, k).resp]
  {
    var a := RunJob(cfg, sh, i);
    var b := RunJob(cfg, a.shared, j);
    assert [i, j, k][1..] == [j, k] && [j, k][1..] == [k] && [k][1..] == [];
    assert RunAll(cfg, b.shared, [k]).resps == [RunJob(cfg, b.shared, k).resp];
    assert RunAll(cfg, a.shared, [j, k]).resps == [b.resp] + RunAll(cfg, b.shared, [k]).resps;
  }

  // ----- A call on its own is the indivisible call -----

  lemma {:induction false} SoloDecided(cfg: Config, sh: Shared, pc: Pc, now: int, gen: string, f: Faults)
    requires Decision(pc).Some?
    ensures
      var x := Solo(cfg, sh, pc, now, gen, f);
      x.shared.users == sh.users && x.shared.garage == sh.garage && Some(x.resp) == Decision(pc)
    decreases Remaining(pc)
  {
    if !pc.Done? {
      var x := Exec(cfg, sh, pc, now, gen, Lost(f, pc));
      SoloDecided(cfg, x.shared, x.pc, now, gen, f);
    }
  }

  lemma SoloSetsOut(cfg: Config, sh: Shared, call: Call, pc: Pc, now: int, gen: string, lost: bool)
    requires Writes(call) && Decision(pc).None? && Fits(cfg, call, pc) && gen !in sh.users
    requires pc.Refetch? ==> Taken(sh.users, pc.row.ext)
    requires pc.Checking? ==> !Live(sh.users, pc.id)
    ensures
      var x := Exec(cfg, sh, pc, now, gen, lost);
      && x.shared == sh.(users := x.shared.users) && Fits(cfg, call, x.pc)
      && (x.pc.Refetch? ==> Taken(x.shared.users, x.pc.row.ext))
      && (x.pc.Checking? ==> !Live(x.shared.users, x.pc.id))
  {
    match call
    case CreateUser(r) =>
    case UpsertDriver(r) =>
    case UpdateUser(r) =>
    case DeleteUser(id) =>
  }

  lemma {:induction false} SoloIsAtomic(cfg: Config, sh: Shared, call: Call, pc: Pc, now: int, gen: string, f: Faults)
    requires Writes(call) && Decision(pc).None? && Fits(cfg, call, pc) && gen !in sh.users
    requires pc.Refetch? ==> Taken(sh.users, pc.row.ext)
    requires pc.Checking? ==> !Live(sh.users, pc.id)
    ensures
      var x, y := Solo(cfg, sh, pc, now, gen, f), AtomicCall(cfg, sh.users, call, now, gen);
      x.shared.users == y.table && x.shared.garage == sh.garage && x.resp == y.resp
    decreases Remaining(pc)
  {
    ExecIsAtomic(cfg, sh, call, pc, now, gen, Lost(f, pc));
    ExecProgress(cfg, sh, pc, now, gen, Lost(f, pc));
    SoloSetsOut(cfg, sh, call, pc, now, gen, Lost(f, pc));
    var x := Exec(cfg, sh, pc, now, gen, Lost(f, pc));
    if Decision(x.pc).None? {
      SoloIsAtomic(cfg, x.shared, call, x.pc, now, gen, f);
    } else {
      SoloDecided(cfg, x.shared, x.pc, now, gen, f);
    }
  }

  // ----- A read on its own -----

  datatype Read = Read(cache: map<string, Entry>, result: Result<User>)

  // What GetUserByID answers and what it leaves in the cache.
  function ReadThrough(cfg: Config, users: Table, cache: map<string, Entry>, id: string, now: int, f: Faults): Read {
    var key := CacheKey(id);
    if cfg.cacheOn && !f.get && key in cache && now < cache[key].expires then Read(cache, Ok(cache[key].user))
    else if id !in users then Read(cache, Err(NotFound))
    else if cfg.cacheOn && !f.set_ then Read(cache[key := Entry(users[id], now + USER_CACHE_TTL)], Ok(users[id]))
    else Read(cache, Ok(users[id]))
  }

  // The statements of a read, one after another, amount to that.
  lemma SoloReadIsReadThrough(cfg: Config, sh: Shared, id: string, now: int, gen: string, f: Faults)
    ensures
      var read := ReadThrough(cfg, sh.users, sh.cache, id, now, f);
      Solo(cfg, sh, Start(cfg, GetUserByID(id)), now, gen, f)
      == Answered(sh.(cache := read.cache), Profile(read.result))
  {
    SoloStep(cfg, sh, CacheGet(id), now, gen, f);
    SoloStep(cfg, sh, Selecting(id), now, gen, f);
    if id in sh.users {
      SoloStep(cfg, sh, CacheSet(id, sh.users[id]), now, gen, f);
    }
  }

  lemma SoloStep(cfg: Config, sh: Shared, pc: Pc, now: int, gen: string, f: Faults)
    requires !pc.Done?
    ensures
      var x := Exec(cfg, sh, pc, now, gen, Lost(f, pc));
      Solo(cfg, sh, pc, now, gen, f) == Solo(cfg, x.shared, x.pc, now, gen, f)
  {
  }

  // ----- Repeats -----

  lemma {:induction false} SoloEvolves(cfg: Config, sh: Shared, pc: Pc, now: int, gen: string, f: Faults)
    ensures Evolves(sh.users, Solo(cfg, sh, pc, now, gen, f).shared.users)
    decreases Remaining(pc)
  {
    if !pc.Done? {
      ExecProgress(cfg, sh, pc, now, gen, Lost(f, pc));
      var x := Exec(cfg, sh, pc, now, gen, Lost(f, pc));
      SoloEvolves(cfg, x.shared, x.pc, now, gen, f);
      EvolvesTransitive(sh.users, x.shared.users, Solo(cfg, sh, pc, now, gen, f).shared.users);
    }
  }

  lemma {:induction false} RunAllEvolves(cfg: Config, sh: Shared, js: seq<Job>)
    ensures Evolves(sh.users, RunAll(cfg, sh, js).shared.users)
    decreases |js|
  {
    if js != [] {
      var a := RunJob(cfg, sh, js[0]);
      SoloEvolves(cfg, sh.(cache := sh.cache - js[0].evicted), Start(cfg, js[0].call),
                  js[0].now, js[0].gen, js[0].faults);
      RunAllEvolves(cfg, a.shared, js[1..]);
      EvolvesTransitive(sh.users, a.shared.users, RunAll(cfg, sh, js).shared.users);
    }
  }

  lemma {:induction false} RunAllAppend(cfg: Config, sh: Shared, xs: seq<Job>, ys: seq<Job>)
    ensures
      var x := RunAll(cfg, sh, xs);
      var y := RunAll(cfg, x.shared, ys);
      RunAll(cfg, sh, xs + ys) == Report(y.shared, x.resps + y.resps)
    decreases |xs|
  {
    if xs == [] {
      assert xs + ys == ys;
    } else {
      var a := RunJob(cfg, sh, xs[0]);
      RunAllAppend(cfg, a.shared, xs[1..], ys);
      assert (xs + ys)[0] == xs[0] && (xs + ys)[1..] == xs[1..] + ys;
    }
  }

  // The natural key of a write shows that it was already done.
  predicate Settled(cfg: Config, t: Table, call: Call)
    requires Writes(call)
  {
    match call
    case CreateUser(r) => ValidCreate(cfg.parses, r) && Taken(t, r.ext)
    case UpsertDriver(r) => ValidUpsert(r) && Taken(t, r.ext)
    case UpdateUser(r) => ValidUpdate(cfg.parses, r) && r.id in t && t[r.id].version > r.expected
    case DeleteUser(id) => IsDeleted(t, id)
  }

  // What a repeat answers: the current row, a conflict, or success again.
  function RepeatAnswer(t: Table, call: Call): Response
    requires GetsOrCreates(call) ==> Taken(t, ExtOf(call))
  {
    match call
    case CreateUser(r) => Profile(Ok(t[Holder(t, r.ext)]))
    case UpsertDriver(r) => Profile(Ok(t[Holder(t, r.ext)]))
    case DeleteUser(_) => Removal(Ok(()))
    case _ => Profile(Err(Conflict))
  }

  lemma SuccessSettles(cfg: Config, t: Table, call: Call, now: int, gen: string)
    requires Writes(call) && Success(AtomicCall(cfg, t, call, now, gen).resp)
    ensures Settled(cfg, AtomicCall(cfg, t, call, now, gen).table, call)
  {
    var t' := AtomicCall(cfg, t, call, now, gen).table;
    match call
    case CreateUser(r) =>
      assert !Taken(t, r.ext) ==> t'[gen].ext == r.ext;
    case UpsertDriver(r) =>
      assert !Taken(t, r.ext) ==> t'[gen].ext == r.ext;
    case _ =>
  }

  lemma SettledStays(cfg: Config, t: Table, t': Table, call: Call)
    requires Writes(call) && Settled(cfg, t, call) && Evolves(t, t')
    ensures Settled(cfg, t', call)
  {
    if GetsOrCreates(call) {
      TakenForever(t, t', ExtOf(call));
    }
  }

  lemma SettledIsNoOp(cfg: Config, sh: Shared, j: Job)
    requires Writes(j.call) && !cfg.cacheOn && sh.cache == map[] && j.gen !in sh.users
    requires Settled(cfg, sh.users, j.call)
    ensures RunJob(cfg, sh, j) == Answered(sh, RepeatAnswer(sh.users, j.call))
  {
    assert sh.cache - j.evicted == map[];
    SoloIsAtomic(cfg, sh, j.call, Start(cfg, j.call), j.now, j.gen, j.faults);
    SoloKeepsCacheOff(cfg, sh, Start(cfg, j.call), j.now, j.gen, j.faults);
  }

  // Without a cache nothing is ever cached.
  lemma {:induction false} SoloKeepsCacheOff(cfg: Config, sh: Shared, pc: Pc, now: int, gen: string, f: Faults)
    requires !cfg.cacheOn && !pc.CacheSet? && sh.cache == map[]
    ensures Solo(cfg, sh, pc, now, gen, f).shared.cache == map[]
    decreases Remaining(pc)
  {
    if !pc.Done? {
      ExecProgress(cfg, sh, pc, now, gen, Lost(f, pc));
      var x := Exec(cfg, sh, pc, now, gen, Lost(f, pc));
      SoloKeepsCacheOff(cfg, x.shared, x.pc, now, gen, f);
    }
  }

  lemma {:induction false} RunAllKeepsCacheOff(cfg: Config, sh: Shared, js: seq<Job>)
    requires !cfg.cacheOn && sh.cache == map[]
    ensures RunAll(cfg, sh, js).shared.cache == map[]
    decreases |js|
  {
    if js != [] {
      SoloKeepsCacheOff(cfg, sh.(cache := sh.cache - js[0].evicted), Start(cfg, js[0].call),
                        js[0].now, js[0].gen, js[0].faults);
      RunAllKeepsCacheOff(cfg, RunJob(cfg, sh, js[0]).shared, js[1..]);
    }
  }

  // After a successful write, however many calls later, the same call finds its work done.
  lemma SettledLater(cfg: Config, sh: Shared, job: Job, mid: seq<Job>)
    requires Writes(job.call) && !cfg.cacheOn && sh.cache == map[] && job.gen !in sh.users
    requires Success(RunJob(cfg, sh, job).resp)
    ensures
      var later := RunAll(cfg, sh, [job] + mid).shared;
      Settled(cfg, later.users, job.call) && later.cache == map[]
  {
    var sh' := sh.(cache := sh.cache - job.evicted);
    var pc := Start(cfg, job.call);
    if Decision(pc).None? {
      SoloIsAtomic(cfg, sh', job.call, pc, job.now, job.gen, job.faults);
    }
    SuccessSettles(cfg, sh.users, job.call, job.now, job.gen);
    var after := RunJob(cfg, sh, job).shared;
    RunAllEvolves(cfg, after, mid);
    SettledStays(cfg, after.users, RunAll(cfg, after, mid).shared.users, job.call);
    RunAllKeepsCacheOff(cfg, sh, [job] + mid);
    assert ([job] + mid)[1..] == mid;
  }

  // A job that changes nothing only adds its own answer.
  lemma InsertNoOp(cfg: Config, sh: Shared, done: seq<Job>, j: Job, rest: seq<Job>, resp: Response)
    requires RunJob(cfg, RunAll(cfg, sh, done).shared, j) == Answered(RunAll(cfg, sh, done).shared, resp)
    ensures
      var at := RunAll(cfg, sh, done);
      var tail := RunAll(cfg, at.shared, rest);
      && RunAll(cfg, sh, done + rest) == Report(tail.shared, at.resps + tail.resps)
      && RunAll(cfg, sh, done + ([j] + rest)) == Report(tail.shared, at.resps + ([resp] + tail.resps))
  {
    RunAllAppend(cfg, sh, done, rest);
    RunAllAppend(cfg, sh, done, [j] + rest);
    assert ([j] + rest)[1..] == rest;
  }

  // Repeating, anywhere later, a write that succeeded changes no row and no other answer.
  lemma RepeatHarmless(cfg: Config, sh: Shared, pre: seq<Job>, job: Job, mid: seq<Job>, repeat_: Job, rest: seq<Job>)
    requires !cfg.cacheOn && sh.cache == map[] && Writes(job.call) && repeat_.call == job.call
    requires job.gen !in RunAll(cfg, sh, pre).shared.users
    requires Success(RunJob(cfg, RunAll(cfg, sh, pre).shared, job).resp)
    requires repeat_.gen !in RunAll(cfg, sh, pre + ([job] + mid)).shared.users
    ensures
      var done := pre + ([job] + mid);
      var at := RunAll(cfg, sh, done);
      var once, twice := RunAll(cfg, sh, done + rest), RunAll(cfg, sh, done + ([repeat_] + rest));
      var tail := RunAll(cfg, at.shared, rest).resps;
      && Settled(cfg, at.shared.users, job.call) && twice.shared == once.shared
      && once.resps == at.resps + tail
      && twice.resps == at.resps + ([RepeatAnswer(at.shared.users, job.call)] + tail)
  {
    var done := pre + ([job] + mid);
    RunAllKeepsCacheOff(cfg, sh, pre);
    RunAllAppend(cfg, sh, pre, [job] + mid);
    SettledLater(cfg, RunAll(cfg, sh, pre).shared, job, mid);
    var at := RunAll(cfg, sh, done);
    SettledIsNoOp(cfg, at.shared, repeat_);
    InsertNoOp(cfg, sh, done, repeat_, rest, RepeatAnswer(at.shared.users, job.call));
  }

  lemma Earliest(js: seq<Job>) returns (since: int)
    ensures forall j <- js :: since <= j.now
  {
    if js == [] {
      since := 0;
    } else {
      since := Earliest(js[1..]);
      if js[0].now < since { since := js[0].now; }
    }
  }

  // With a cache whose DELs succeed, callers cannot tell either.
  lemma RepeatHarmlessWithCache(on: Config, off: Config, sh: Shared, pre: seq<Job>, job: Job, mid: seq<Job>,
                                repeat_: Job, rest: seq<Job>)
    requires on.cacheOn && off == on.(cacheOn := false) && sh.cache == map[]
    requires Writes(job.call) && repeat_.call == job.call
    requires forall j <- pre + ([job] + mid) + ([repeat_] + rest) :: !j.faults.del
    requires job.gen !in RunAll(off, sh, pre).shared.users
    requires Success(RunJob(off, RunAll(off, sh, pre).shared, job).resp)
    requires repeat_.gen !in RunAll(off, sh, pre + ([job] + mid)).shared.users
    ensures
      var done := pre + ([job] + mid);
      var once, twice := RunAll(on, sh, done + rest), RunAll(on, sh, done + ([repeat_] + rest));
      && twice.shared.users == once.shared.users && twice.shared.garage == once.shared.garage
      && exists before, answer, after :: |before| == |done|
           && once.resps == before + after && twice.resps == before + ([answer] + after)
  {
    var done := pre + ([job] + mid);
    RepeatHarmless(off, sh, pre, job, mid, repeat_, rest);
    var since := Earliest(done + ([repeat_] + rest));
    CacheUnobservable(on, off, sh, sh, done + rest, since);
    CacheUnobservable(on, off, sh, sh, done + ([repeat_] + rest), since);
    ResponseCount(off, sh, done);
    var at := RunAll(off, sh, done);
    var answer, tail := RepeatAnswer(at.shared.users, job.call), RunAll(off, at.shared, rest).resps;
    assert RunAll(on, sh, done + rest).resps == at.resps + tail;
    assert RunAll(on, sh, done + ([repeat_] + rest)).resps == at.resps + ([answer] + tail);
  }

  lemma {:induction false} ResponseCount(cfg: Config, sh: Shared, js: seq<Job>)
    ensures |RunAll(cfg, sh, js).resps| == |js|
    decreases |js|
  {
    if js != [] { ResponseCount(cfg, RunJob(cfg, sh, js[0]).shared, js[1..]); }
  }
}
