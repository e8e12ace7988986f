/** RegisterVehicle checks the driver and inserts the vehicle in two statements; nothing slips between. */
module VehicleSafety {
  import opened Wrappers
  import opened Plates
  import opened Requests
  import opened Users
  import opened Service
  import opened Traces
  import opened Linearizability
  import V = Vehicles

  // Every vehicle has a driver, a normal plate of the language and a known kind.
  ghost predicate GarageOk(sh: Shared) {
    forall i <- sh.garage :: VehicleOk(sh.garage[i], sh.users)
  }

  ghost predicate VehicleOk(v: V.Vehicle, users: Table) {
    && v.driver in users && Normalise(v.nopol) == v.nopol && InLanguage(v.nopol)
    && (v.kind == "CAR" || v.kind == "MOTORCYCLE")
  }

  // What a registration remembers is still true when it inserts.
  ghost predicate RegistrationOk(pc: Pc, users: Table) {
    pc.Registering? ==> ValidVehicle(pc.vehicle) && pc.vehicle.driver in users
  }

  lemma PlateOk(r: RegisterVehicleRequest)
    requires ValidVehicle(r)
    ensures Normalise(Normalise(r.nopol)) == Normalise(r.nopol) && InLanguage(Normalise(r.nopol))
  {
    NormaliseIdempotent(r.nopol);
    ScannerExact(Normalise(r.nopol));
  }

  lemma RegisterOk(sh: Shared, r: RegisterVehicleRequest, gen: string, now: int)
    requires GarageOk(sh) && ValidVehicle(r) && r.driver in sh.users && gen !in sh.garage
    ensures
      var o := V.Register(sh.garage, sh.users.Keys, NewVehicle(r), gen, now);
      GarageOk(sh.(garage := o.garage)) && o.result.Ok?
  {
    PlateOk(r);
    var o := V.Register(sh.garage, sh.users.Keys, NewVehicle(r), gen, now);
    RegisterPuts(sh.garage, sh.users.Keys, NewVehicle(r), gen, now);
    assert VehicleOk(o.result.value, sh.users);
  }

  lemma RegisterPuts(t: V.Garage, drivers: set<string>, v: V.NewVehicle, gen: string, now: int)
    requires v.driver in drivers && gen !in t
    ensures
      var o := V.Register(t, drivers, v, gen, now);
      && o.result.Ok? && o.garage == t[o.result.value.id := o.result.value]
      && o.result.value.driver == v.driver && o.result.value.nopol == v.nopol && o.result.value.kind == v.kind
  {
  }

  lemma ExecRegistration(cfg: Config, sh: Shared, call: Call, pc: Pc, now: int, gen: string, lost: bool)
    requires Fits(cfg, call, pc)
    ensures
      var x := Exec(cfg, sh, pc, now, gen, lost);
      RegistrationOk(x.pc, x.shared.users) && (!pc.Registering? ==> x.shared.garage == sh.garage)
  {
  }

  lemma ExecKeepsVehicles(cfg: Config, sh: Shared, call: Call, pc: Pc, now: int, gen: string, lost: bool)
    requires GarageOk(sh) && RegistrationOk(pc, sh.users) && NewTo(sh, pc, gen) && Fits(cfg, call, pc) && !pc.Done?
    ensures
      var x := Exec(cfg, sh, pc, now, gen, lost);
      GarageOk(x.shared) && RegistrationOk(x.pc, x.shared.users)
  {
    ExecRegistration(cfg, sh, call, pc, now, gen, lost);
    if pc.Registering? {
      RegisterOk(sh, pc.vehicle, gen, now);
    } else {
      ExecProgress(cfg, sh, pc, now, gen, lost);
      OthersKeepVehicles(sh, Exec(cfg, sh, pc, now, gen, lost).shared);
    }
  }

  lemma OthersKeepVehicles(sh: Shared, sh': Shared)
    requires GarageOk(sh) && sh'.garage == sh.garage && Evolves(sh.users, sh'.users)
    ensures GarageOk(sh')
  {
  }

  // In every interleaving with user operations the vehicle table stays sound, and a driver found
  // by the check is still there at the insert.
  lemma {:induction false} VehiclesSound(tr: Trace, k: nat)
    requires IsRun(tr) && Reaches(tr, k) && GarageOk(tr.ss[0].sh)
    ensures GarageOk(tr.ss[k].sh)
    ensures forall p <- tr.ss[k].clients :: RegistrationOk(tr.ss[k].clients[p].pc, tr.ss[k].sh.users)
  {
    if k > 0 {
      VehiclesSound(tr, k - 1);
      assert StepAt(tr, k - 1);
      UsersEvolve(tr, k - 1, k);
      var s, e, t := tr.ss[k - 1], tr.es[k - 1], tr.ss[k];
      if e.Step? {
        ClientFits(tr, k - 1, e.p);
        ExecKeepsVehicles(tr.cfg, s.sh, s.clients[e.p].call, s.clients[e.p].pc, s.now, e.gen, e.lost);
      } else {
        OthersKeepVehicles(s.sh, t.sh);
      }
      forall p | p in t.clients ensures RegistrationOk(t.clients[p].pc, t.sh.users) {
        if p in s.clients && !(e.Step? && e.p == p) {
          assert t.clients[p] == s.clients[p] && RegistrationOk(s.clients[p].pc, s.sh.users);
        }
      }
    }
  }

  // The whole registration at once.
  function AtomicRegister(users: Table, garage: V.Garage, r: RegisterVehicleRequest, now: int, gen: string): V.Outcome {
    if !ValidVehicle(r) then V.Outcome(garage, Err(Validation))
    else if r.driver !in users then V.Outcome(garage, Err(NotFound))
    else V.Register(garage, users.Keys, NewVehicle(r), gen, now)
  }

  // A vehicle holding what a request asked for.
  predicate AsAsked(r: RegisterVehicleRequest, v: V.Vehicle) {
    v.driver == r.driver && v.nopol == Normalise(r.nopol) && v.kind == r.kind && v.isDefault == r.isDefault
  }

  lemma ExecAnswersVehicle(cfg: Config, sh: Shared, r: RegisterVehicleRequest, pc: Pc, now: int, gen: string,
                           lost: bool)
    requires Fits(cfg, RegisterVehicle(r), pc) && !pc.Done? && RegistrationOk(pc, sh.users) && NewTo(sh, pc, gen)
    ensures
      var x, o := Exec(cfg, sh, pc, now, gen, lost), AtomicRegister(sh.users, sh.garage, r, now, gen);
      if x.pc.Done? then x.pc.resp == Plate(o.result) && x.shared.garage == o.garage
                         && o.result != Err(ForeignKey) && o.result != Err(DuplicateKey)
                         && (o.result.Ok? ==>
                               AsAsked(r, o.result.value)
                               && x.shared.garage == sh.garage[o.result.value.id := o.result.value])
      else x.shared.garage == sh.garage
  {
  }

  // Each statement that answers a registration answers as the indivisible one would at that moment,
  // so the foreign key never rejects it; every other event leaves the vehicle table alone.
  lemma RegistrationIsAtomic(tr: Trace, k: nat)
    requires IsRun(tr) && k < |tr.es| && GarageOk(tr.ss[0].sh)
    ensures
      var e, s, t := tr.es[k], tr.ss[k], tr.ss[k + 1];
      if (e.Begin? || e.Step?) && e.p in t.clients && t.clients[e.p].call.RegisterVehicle? && t.clients[e.p].pc.Done?
      then
        var gen := if e.Step? then e.gen else "";
        var o := AtomicRegister(s.sh.users, s.sh.garage, t.clients[e.p].call.vehicle, s.now, gen);
        && t.clients[e.p].pc.resp == Plate(o.result) && t.sh.garage == o.garage
        && o.result != Err(ForeignKey) && o.result != Err(DuplicateKey)
        && (o.result.Ok? ==> AsAsked(t.clients[e.p].call.vehicle, o.result.value)
                             && t.sh.garage == s.sh.garage[o.result.value.id := o.result.value])
      else t.sh.garage == s.sh.garage
  {
    assert StepAt(tr, k);
    VehiclesSound(tr, k);
    var s, e := tr.ss[k], tr.es[k];
    if e.Step? {
      ClientFits(tr, k, e.p);
      assert RegistrationOk(s.clients[e.p].pc, s.sh.users);
      if s.clients[e.p].call.RegisterVehicle? {
        var r := s.clients[e.p].call.vehicle;
        ExecAnswersVehicle(tr.cfg, s.sh, r, s.clients[e.p].pc, s.now, e.gen, e.lost);
      } else {
        ExecRegistration(tr.cfg, s.sh, s.clients[e.p].call, s.clients[e.p].pc, s.now, e.gen, e.lost);
      }
    }
  }

  lemma RegisterKeepsIdentity(t: V.Garage, drivers: set<string>, v: V.NewVehicle, gen: string, now: int, id: string)
    requires id in t
    ensures
      var o := V.Register(t, drivers, v, gen, now);
      id in o.garage && V.SameVehicle(t[id], o.garage[id])
  {
  }

  // Through any run a vehicle keeps its id, driver, plate and creation time.
  lemma {:induction false} VehiclesKeepIdentity(tr: Trace, i: nat, k: nat, id: string)
    requires Reaches(tr, k) && i <= k && id in tr.ss[i].sh.garage
    ensures id in tr.ss[k].sh.garage && V.SameVehicle(tr.ss[i].sh.garage[id], tr.ss[k].sh.garage[id])
  {
    if i < k {
      VehiclesKeepIdentity(tr, i, k - 1, id);
      assert StepAt(tr, k - 1);
      var s, e := tr.ss[k - 1], tr.es[k - 1];
      if e.Step? && s.clients[e.p].pc.Registering? {
        RegisterKeepsIdentity(s.sh.garage, s.sh.users.Keys, NewVehicle(s.clients[e.p].pc.vehicle), e.gen, s.now, id);
      } else {
        assert tr.ss[k].sh.garage == s.sh.garage;
      }
    }
  }

  // Call p asked for this vehicle and was given v.
  predicate GotVehicle(s: State, p: nat, r: RegisterVehicleRequest, v: V.Vehicle) {
    p in s.clients && s.clients[p] == Client(RegisterVehicle(r), Done(Plate(Ok(v))))
  }

  lemma ExecGetsVehicle(cfg: Config, sh: Shared, r: RegisterVehicleRequest, pc: Pc, now: int, gen: string, lost: bool,
                        v: V.Vehicle)
    requires Fits(cfg, RegisterVehicle(r), pc) && !pc.Done?
    requires Exec(cfg, sh, pc, now, gen, lost).pc == Done(Plate(Ok(v)))
    ensures
      var t := Exec(cfg, sh, pc, now, gen, lost).shared.garage;
      v.id in t && t[v.id].driver == r.driver && t[v.id].nopol == Normalise(r.nopol)
  {
  }

  // The vehicle that a registration was given stays in the table, with the plate asked for.
  lemma {:induction false} VehicleThere(tr: Trace, k: nat, p: nat, r: RegisterVehicleRequest, v: V.Vehicle)
    requires IsRun(tr) && Reaches(tr, k) && GotVehicle(tr.ss[k], p, r, v)
    ensures
      var t := tr.ss[k].sh.garage;
      v.id in t && t[v.id].driver == r.driver && t[v.id].nopol == Normalise(r.nopol)
  {
    BeganFirst(tr, k, p);
    assert StepAt(tr, k - 1);
    var s, e := tr.ss[k - 1], tr.es[k - 1];
    if GotVehicle(s, p, r, v) {
      VehicleThere(tr, k - 1, p, r, v);
      VehiclesKeepIdentity(tr, k - 1, k, v.id);
    } else {
      ClientFits(tr, k - 1, p);
      ExecGetsVehicle(tr.cfg, s.sh, r, s.clients[p].pc, s.now, e.gen, e.lost, v);
    }
  }

  // Any two accepted registrations of a run, whatever ran before, between and after them, were given
  // the same row exactly when they name the same driver and spell the same plate.
  lemma SameRowExactly(tr: Trace, k: nat, p: nat, q: nat, r: RegisterVehicleRequest, v: V.Vehicle,
                       r': RegisterVehicleRequest, v': V.Vehicle)
    requires IsRun(tr) && Reaches(tr, k) && GotVehicle(tr.ss[k], p, r, v) && GotVehicle(tr.ss[k], q, r', v')
    ensures v.id == v'.id <==> r.driver == r'.driver && Normalise(r.nopol) == Normalise(r'.nopol)
  {
    VehicleThere(tr, k, p, r, v);
    VehicleThere(tr, k, q, r', v');
  }

  // Two spellings of a plate that differ in nothing but spaces and case are one vehicle, and others are not.
  lemma SameRowForSpellings(tr: Trace, k: nat, p: nat, q: nat, r: RegisterVehicleRequest, v: V.Vehicle,
                            r': RegisterVehicleRequest, v': V.Vehicle)
    requires IsRun(tr) && Reaches(tr, k) && GotVehicle(tr.ss[k], p, r, v) && GotVehicle(tr.ss[k], q, r', v')
    requires Ascii(r.nopol) && Ascii(r'.nopol)
    ensures v.id == v'.id <==> r.driver == r'.driver && SameSpelling(r.nopol, r'.nopol)
  {
    SameRowExactly(tr, k, p, q, r, v, r', v');
    SpellingExact(r.nopol, r'.nopol);
  }

  // Event k is the upsert of a registration that was given this row.
  predicate RegistersAt(tr: Trace, k: nat, id: string)
    requires |tr.ss| == |tr.es| + 1 && k < |tr.es|
  {
    var e := tr.es[k];
    && e.Step? && e.p in tr.ss[k].clients && tr.ss[k].clients[e.p].pc.Registering?
    && e.p in tr.ss[k + 1].clients
    && match tr.ss[k + 1].clients[e.p].pc
       case Done(Plate(Ok(v))) => v.id == id
       case _ => false
  }

  lemma RegisterTouchesOne(t: V.Garage, drivers: set<string>, v: V.NewVehicle, gen: string, now: int, id: string)
    requires id in t
    ensures
      var o := V.Register(t, drivers, v, gen, now);
      id in o.garage && (o.result.Err? || o.result.value.id != id ==> o.garage[id] == t[id])
  {
  }

  lemma {:induction false} VehicleStays(tr: Trace, i: nat, k: nat, id: string)
    requires Reaches(tr, k) && i <= k && id in tr.ss[i].sh.garage
    requires forall m | i <= m < k :: !RegistersAt(tr, m, id)
    ensures id in tr.ss[k].sh.garage && tr.ss[k].sh.garage[id] == tr.ss[i].sh.garage[id]
  {
    if i < k {
      VehicleStays(tr, i, k - 1, id);
      assert StepAt(tr, k - 1) && !RegistersAt(tr, k - 1, id);
      var s, e := tr.ss[k - 1], tr.es[k - 1];
      if e.Step? && s.clients[e.p].pc.Registering? {
        RegisterTouchesOne(s.sh.garage, s.sh.users.Keys, NewVehicle(s.clients[e.p].pc.vehicle), e.gen, s.now, id);
      } else {
        assert tr.ss[k].sh.garage == s.sh.garage;
      }
    }
  }

  // A vehicle holds what its last accepted registration asked for: j is that registration's upsert.
  lemma LastRegistrationStands(tr: Trace, j: nat, k: nat, id: string)
    requires IsRun(tr) && Reaches(tr, k) && j < k && RegistersAt(tr, j, id) && GarageOk(tr.ss[0].sh)
    requires forall m | j < m < k :: !RegistersAt(tr, m, id)
    ensures tr.ss[j].clients[tr.es[j].p].call.RegisterVehicle?
    ensures id in tr.ss[k].sh.garage && AsAsked(tr.ss[j].clients[tr.es[j].p].call.vehicle, tr.ss[k].sh.garage[id])
  {
    assert StepAt(tr, j);
    ClientFits(tr, j, tr.es[j].p);
    RegistrationIsAtomic(tr, j);
    VehicleStays(tr, j + 1, k, id);
  }
}
