/** The Postgres adapter for vehicles. */
module VehicleRepositories {
  import opened Wrappers
  import opened OrderBy
  import opened Vehicles

  lemma FleetListed(t: Garage, driver: string, plan: seq<string>)
    requires Answers(Fleet(t, driver), plan)
    ensures forall i <- plan :: i in t && t[i].driver == driver
  {
  }

  class VehicleRepository {
    var rows: Garage

    constructor (rows: Garage)
      ensures this.rows == rows
    {
      this.rows := rows;
    }

    // Other clients may register vehicles between two statements of a call; a quiet call has
    // nobody beside it.
    method Others(ghost quiet: bool)
      modifies this
      ensures KeepsVehicles(old(rows), rows)
      ensures quiet ==> rows == old(rows)
    {
    }

    // A known plate of the driver keeps its row, with id and creation time; an unknown one gets a row
    // under the generated id, if the driver exists. Nothing else changes. drivers is what the
    // foreign key refers to.
    method Register(v: NewVehicle, drivers: set<string>, gen: string, now: int) returns (r: Result<Vehicle>)
      modifies this
      ensures r.Ok? ==>
                && rows == old(rows)[r.value.id := r.value]
                && NewVehicle(r.value.driver, r.value.nopol, r.value.kind, r.value.isDefault) == v
      ensures r.Err? ==> rows == old(rows)
      ensures (exists i <- old(rows) :: old(rows)[i].driver == v.driver && old(rows)[i].nopol == v.nopol) ==>
                r.Ok? && r.value.id in old(rows) && SameVehicle(old(rows)[r.value.id], r.value)
      ensures (forall i <- old(rows) :: old(rows)[i].driver == v.driver ==> old(rows)[i].nopol != v.nopol) ==>
                if gen in old(rows) then r == Err(DuplicateKey)
                else if v.driver !in drivers then r == Err(ForeignKey)
                else r.Ok? && r.value.id == gen && r.value.createdAt == now
      ensures Outcome(rows, r) == Vehicles.Register(old(rows), drivers, v, gen, now)
      ensures KeepsVehicles(old(rows), rows)
    {
      if i :| i in rows && rows[i].driver == v.driver && rows[i].nopol == v.nopol {
        var row := rows[i].(kind := v.kind, isDefault := v.isDefault);
        rows := rows[i := row];
        return Ok(row);
      }
      if gen in rows {
        return Err(DuplicateKey);
      }
      if v.driver !in drivers {
        return Err(ForeignKey);
      }
      var row := Vehicle(gen, v.driver, v.nopol, v.kind, v.isDefault, now);
      rows := rows[gen := row];
      return Ok(row);
    }

    // plan is the order in which the database returns the driver's rows: default first, then by
    // creation, ties as it likes.
    method ListByDriverID(driver: string, plan: seq<string>) returns (vehicles: seq<Vehicle>)
      requires Answers(Fleet(rows, driver), plan)
      ensures |vehicles| == |Fleet(rows, driver)|
      ensures forall i <- rows :: rows[i].driver == driver <==> rows[i] in vehicles
      ensures forall v <- vehicles :: v.driver == driver && v.id in rows && rows[v.id] == v
      ensures forall k, l | 0 <= k < l < |vehicles| ::
                && vehicles[k].id != vehicles[l].id
                && (vehicles[l].isDefault ==> vehicles[k].isDefault)
                && (vehicles[l].isDefault == vehicles[k].isDefault ==> vehicles[k].createdAt <= vehicles[l].createdAt)
    {
      FleetListed(rows, driver, plan);
      vehicles := [];
      for k := 0 to |plan|
        invariant |vehicles| == k
        invariant forall m | 0 <= m < k :: vehicles[m] == rows[plan[m]]
      {
        vehicles := vehicles + [rows[plan[k]]];
      }
      AnswerLength(Fleet(rows, driver), plan);
      forall i | i in rows && rows[i].driver == driver ensures rows[i] in vehicles {
        assert i in Fleet(rows, driver) && i in plan;
        var k :| 0 <= k < |plan| && plan[k] == i;
        assert vehicles[k] == rows[i];
      }
      assert forall k | 0 <= k < |plan| :: Fleet(rows, driver)[plan[k]] == RankOf(vehicles[k]);
    }
  }
}
