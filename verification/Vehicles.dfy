/** The vehicle table and the two statements of its Postgres adapter. */
module Vehicles {
  import opened Wrappers
  import opened OrderBy

  datatype Vehicle = Vehicle(id: string, driver: string, nopol: string, kind: string,
                             isDefault: bool, createdAt: int)

  datatype NewVehicle = NewVehicle(driver: string, nopol: string, kind: string, isDefault: bool)

  ghost predicate IdsMatch(t: map<string, Vehicle>) {
    forall i <- t :: t[i].id == i
  }

  ghost predicate UniquePlates(t: map<string, Vehicle>) {
    forall i, j | i in t && j in t && t[i].driver == t[j].driver && t[i].nopol == t[j].nopol :: i == j
  }

  // PRIMARY KEY (id) and UNIQUE (driver_id, nopol).
  type Garage = t: map<string, Vehicle> | IdsMatch(t) && UniquePlates(t) witness map[]

  datatype Outcome = Outcome(garage: Garage, result: Result<Vehicle>)

  predicate Registered(t: Garage, driver: string, nopol: string) {
    exists i <- t :: t[i].driver == driver && t[i].nopol == nopol
  }

  function Find(t: Garage, driver: string, nopol: string): (i: string)
    requires Registered(t, driver, nopol)
    ensures i in t && t[i].driver == driver && t[i].nopol == nopol
  {
    var i :| i in t && t[i].driver == driver && t[i].nopol == nopol; i
  }

  predicate SameVehicle(v: Vehicle, w: Vehicle) {
    v.id == w.id && v.driver == w.driver && v.nopol == w.nopol && v.createdAt == w.createdAt
  }

  // What any client may rely on while others register vehicles.
  ghost predicate KeepsVehicles(t: Garage, t': Garage) {
    forall i <- t :: i in t' && SameVehicle(t[i], t'[i])
  }

  // INSERT ... ON CONFLICT (driver_id, nopol) DO UPDATE. The foreign key is checked only for a
  // row that is really inserted.
  function Register(t: Garage, drivers: set<string>, v: NewVehicle, gen: string, now: int): Outcome {
    if Registered(t, v.driver, v.nopol) then
      var i := Find(t, v.driver, v.nopol);
      var row := t[i].(kind := v.kind, isDefault := v.isDefault);
      Outcome(t[i := row], Ok(row))
    else if gen in t then Outcome(t, Err(DuplicateKey))
    else if v.driver !in drivers then Outcome(t, Err(ForeignKey))
    else
      var row := Vehicle(gen, v.driver, v.nopol, v.kind, v.isDefault, now);
      Outcome(t[gen := row], Ok(row))
  }

  // ORDER BY is_default DESC, created_at ASC
  function RankOf(v: Vehicle): Rank {
    Rank(if v.isDefault then 0 else 1, v.createdAt)
  }

  function Fleet(t: Garage, driver: string): Ranks {
    map i | i in t && t[i].driver == driver :: RankOf(t[i])
  }

  ghost predicate DistinctTimes(t: Garage, driver: string) {
    forall i, j | i in t && j in t && t[i].driver == driver == t[j].driver
                  && t[i].createdAt == t[j].createdAt :: i == j
  }

  lemma ReRegister(t: Garage, drivers: set<string>, v: NewVehicle, gen: string, now: int)
    requires Registered(t, v.driver, v.nopol)
    ensures
      var t', i := Register(t, drivers, v, gen, now).garage, Find(t, v.driver, v.nopol);
      t' == t[i := Vehicle(i, v.driver, v.nopol, v.kind, v.isDefault, t[i].createdAt)]
  {
  }

  lemma FleetAfter(t: Garage, t': Garage, i: string, d: string)
    requires i in t && t'.Keys == t.Keys && t'[i].driver == t[i].driver && forall j <- t :: j != i ==> t'[j] == t[j]
    ensures Fleet(t', d) == if d == t[i].driver then Fleet(t, d)[i := RankOf(t'[i])] else Fleet(t, d)
  {
  }

  // Re-registering a plate keeps the vehicle's id, plate and creation time, leaves every other
  // vehicle and every other driver's list alone, and in the driver's own list moves that
  // vehicle only; its new place is the sorted one because the new list answers the query.
  lemma ReRegisterMovesOne(t: Garage, drivers: set<string>, v: NewVehicle, gen: string, now: int)
    requires Registered(t, v.driver, v.nopol) && DistinctTimes(t, v.driver)
    ensures
      var t', i := Register(t, drivers, v, gen, now).garage, Find(t, v.driver, v.nopol);
      && t'.Keys == t.Keys
      && t'[i] == Vehicle(i, v.driver, v.nopol, v.kind, v.isDefault, t[i].createdAt)
      && (forall j <- t :: j != i ==> t'[j] == t[j])
      && (forall d :: d != v.driver ==> Fleet(t', d) == Fleet(t, d))
      && Without(Sorted(Fleet(t', v.driver)), i) == Without(Sorted(Fleet(t, v.driver)), i)
      && DistinctTimes(t', v.driver)
  {
    var t', i := Register(t, drivers, v, gen, now).garage, Find(t, v.driver, v.nopol);
    ReRegister(t, drivers, v, gen, now);
    forall d {
      FleetAfter(t, t', i, d);
    }
    SortedMove(Fleet(t, v.driver), i, RankOf(t'[i]));
  }

  // Two registrations of one driver reach the same row exactly when their plates agree.
  lemma SamePlateSameRow(t: Garage, drivers: set<string>, v: NewVehicle, gen: string, now: int,
                         w: NewVehicle, gen': string, now': int)
    requires v.driver == w.driver
    ensures
      var first := Register(t, drivers, v, gen, now);
      var second := Register(first.garage, drivers, w, gen', now');
      first.result.Ok? && second.result.Ok? ==>
        (first.result.value.id == second.result.value.id <==> v.nopol == w.nopol)
  {
    var first := Register(t, drivers, v, gen, now);
    if first.result.Ok? {
      var i := first.result.value.id;
      assert i in first.garage && first.garage[i].driver == v.driver && first.garage[i].nopol == v.nopol;
    }
  }

  ghost predicate AtMostOneDefault(t: Garage, driver: string) {
    forall i, j | i in t && j in t && t[i].driver == driver == t[j].driver
                  && t[i].isDefault && t[j].isDefault :: i == j
  }

  // Register clears no other default: a driver keeps at most one exactly when the vehicle being
  // registered is not made default next to another one that is.
  lemma OneDefaultExactly(t: Garage, drivers: set<string>, v: NewVehicle, gen: string, now: int)
    requires AtMostOneDefault(t, v.driver) && Register(t, drivers, v, gen, now).result.Ok?
    ensures AtMostOneDefault(Register(t, drivers, v, gen, now).garage, v.driver) <==>
              (v.isDefault ==> forall i <- t | t[i].driver == v.driver && t[i].isDefault :: t[i].nopol == v.nopol)
  {
    var o := Register(t, drivers, v, gen, now);
    var t', id := o.garage, o.result.value.id;
    assert t'[id].driver == v.driver && t'[id].nopol == v.nopol && t'[id].isDefault == v.isDefault;
    if v.isDefault {
      forall i | i in t && t[i].driver == v.driver && t[i].isDefault && t[i].nopol != v.nopol
        ensures !AtMostOneDefault(t', v.driver)
      {
        assert t'[i] == t[i] && i != id;
      }
    }
  }
}
