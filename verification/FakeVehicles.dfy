/** The in-memory vehicle repository of the tests: one growing slice per driver. */
module FakeVehicles {
  import opened Plates
  import V = Vehicles

  type List = seq<V.Vehicle>

  ghost predicate UniquePlates(s: List) {
    forall k, l | 0 <= k < l < |s| :: s[k].nopol != s[l].nopol
  }

  // Where a plate is in a list, or the length of the list.
  function Find(s: List, nopol: string): (k: nat)
    ensures k <= |s|
    ensures k < |s| ==> s[k].nopol == nopol
    ensures forall l | 0 <= l < k :: s[l].nopol != nopol
  {
    if s == [] || s[0].nopol == nopol then 0 else 1 + Find(s[1..], nopol)
  }

  function MockId(v: V.Vehicle, nopol: string): string {
    if v.id == "" then "mock-veh-" + v.driver + "-" + nopol else v.id
  }

  // The specification of one registration on the driver's list.
  function Put(s: List, v: V.Vehicle): List {
    var nopol := Normalise(v.nopol);
    var k := Find(s, nopol);
    if k < |s| then s[k := s[k].(kind := v.kind, isDefault := v.isDefault)]
    else s + [v.(nopol := nopol, id := MockId(v, nopol))]
  }

  function Known(s: List): set<string> {
    set k | 0 <= k < |s| :: s[k].nopol
  }

  // As a map keyed by plate.
  function ByPlate(s: List): map<string, V.Vehicle> {
    map p | p in Known(s) :: s[Find(s, p)]
  }

  lemma InPlates(s: List, p: string)
    ensures p in Known(s) <==> Find(s, p) < |s|
  {
  }

  lemma {:induction false} FindAfterUpdate(s: List, k: nat, v: V.Vehicle, p: string)
    requires k < |s| && v.nopol == s[k].nopol
    ensures Find(s[k := v], p) == Find(s, p)
  {
    if k > 0 {
      FindAfterUpdate(s[1..], k - 1, v, p);
      assert s[k := v][1..] == s[1..][k - 1 := v];
    } else {
      assert s[k := v][1..] == s[1..];
    }
  }

  lemma {:induction false} FindAfterAppend(s: List, v: V.Vehicle, p: string)
    ensures Find(s + [v], p) == if Find(s, p) < |s| then Find(s, p) else if v.nopol == p then |s| else |s| + 1
  {
    if s == [] {
      assert (s + [v])[1..] == [];
    } else {
      FindAfterAppend(s[1..], v, p);
      assert (s + [v])[1..] == s[1..] + [v];
    }
  }

  // The list keeps plates unique and the order of first registration, with their ids.
  lemma PutKeepsOrder(s: List, v: V.Vehicle)
    requires UniquePlates(s)
    ensures UniquePlates(Put(s, v)) && |s| <= |Put(s, v)| <= |s| + 1
    ensures forall k | 0 <= k < |s| :: Put(s, v)[k].nopol == s[k].nopol && Put(s, v)[k].id == s[k].id
  {
  }

  // A driver's list after some registrations, the last one last.
  function PutAll(vs: seq<V.Vehicle>): List {
    if vs == [] then [] else Put(PutAll(vs[..|vs| - 1]), vs[|vs| - 1])
  }

  // Over any run of registrations a plate is listed once, where its first registration put it and
  // with the id it was given there.
  lemma {:induction false} RegistrationsKeepOrder(vs: seq<V.Vehicle>, m: nat)
    requires m <= |vs|
    ensures
      var earlier, s := PutAll(vs[..m]), PutAll(vs);
      && UniquePlates(s) && |earlier| <= |s|
      && forall k | 0 <= k < |earlier| :: s[k].nopol == earlier[k].nopol && s[k].id == earlier[k].id
    decreases |vs|
  {
    if m == |vs| {
      assert vs[..m] == vs;
      if vs != [] {
        RegistrationsKeepOrder(vs[..m - 1], m - 1);
        PutKeepsOrder(PutAll(vs[..m - 1]), vs[m - 1]);
      }
    } else {
      var before := vs[..|vs| - 1];
      RegistrationsKeepOrder(before, m);
      assert before[..m] == vs[..m];
      PutKeepsOrder(PutAll(before), vs[|vs| - 1]);
    }
  }

  lemma PutAtPlate(s: List, v: V.Vehicle, p: string)
    ensures
      var s', k := Put(s, v), Find(s, p);
      if p == Normalise(v.nopol) then
        p in ByPlate(s') && ByPlate(s')[p] == s'[k]
      else
        (p in ByPlate(s') <==> p in ByPlate(s)) && (p in ByPlate(s) ==> ByPlate(s')[p] == ByPlate(s)[p])
  {
    var s' := Put(s, v);
    var k := Find(s, Normalise(v.nopol));
    InPlates(s, p);
    InPlates(s', p);
    if k < |s| { FindAfterUpdate(s, k, s'[k], p); } else { FindAfterAppend(s, s'[k], p); }
  }

  // Seen by plate, a registration is the map update that an upsert is: a known plate keeps its id
  // and changes type and default flag, a new one is added, all others stay.
  lemma PutRefinesMap(s: List, v: V.Vehicle)
    ensures
      var nopol := Normalise(v.nopol);
      ByPlate(Put(s, v)) == ByPlate(s)[nopol :=
        if nopol in ByPlate(s) then ByPlate(s)[nopol].(kind := v.kind, isDefault := v.isDefault)
        else v.(nopol := nopol, id := if v.id == "" then "mock-veh-" + v.driver + "-" + nopol else v.id)]
  {
    InPlates(s, Normalise(v.nopol));
    forall p {
      PutAtPlate(s, v, p);
    }
  }

  // The fake and the SQL table hold the same plates of a driver with the same details.
  ghost predicate Mirrors(s: List, t: V.Garage, driver: string) {
    && (forall p <- ByPlate(s) :: V.Registered(t, driver, p) && SameDetails(ByPlate(s)[p], t[V.Find(t, driver, p)]))
    && (forall i <- t :: t[i].driver == driver ==> t[i].nopol in ByPlate(s))
  }

  predicate SameDetails(v: V.Vehicle, w: V.Vehicle) {
    v.nopol == w.nopol && v.kind == w.kind && v.isDefault == w.isDefault
  }

  // One registration keeps them alike; in both, a plate already known keeps its id.
  lemma FakeFollowsUpsert(s: List, t: V.Garage, drivers: set<string>, v: V.Vehicle, gen: string, now: int)
    requires Mirrors(s, t, v.driver) && v.driver in drivers && gen !in t && Normalise(v.nopol) == v.nopol
    ensures
      var o := V.Register(t, drivers, V.NewVehicle(v.driver, v.nopol, v.kind, v.isDefault), gen, now);
      && Mirrors(Put(s, v), o.garage, v.driver) && o.result.Ok?
      && v.nopol in ByPlate(Put(s, v)) && SameDetails(ByPlate(Put(s, v))[v.nopol], o.result.value)
      && (v.nopol in ByPlate(s) ==>
            && ByPlate(Put(s, v))[v.nopol].id == ByPlate(s)[v.nopol].id
            && o.result.value.id == V.Find(t, v.driver, v.nopol))
  {
    PutRefinesMap(s, v);
    var o := V.Register(t, drivers, V.NewVehicle(v.driver, v.nopol, v.kind, v.isDefault), gen, now);
    KnownPlate(s, v.nopol);
    MirrorsAfter(ByPlate(s), ByPlate(Put(s, v)), t, v, o);
  }

  lemma KnownPlate(s: List, p: string)
    ensures p in ByPlate(s) ==> ByPlate(s)[p].nopol == p
  {
    InPlates(s, p);
  }

  lemma MirrorsAfter(m: map<string, V.Vehicle>, m': map<string, V.Vehicle>, t: V.Garage, v: V.Vehicle, o: V.Outcome)
    requires forall p <- m :: V.Registered(t, v.driver, p) && SameDetails(m[p], t[V.Find(t, v.driver, p)])
    requires forall i <- t :: t[i].driver == v.driver ==> t[i].nopol in m
    requires v.nopol in m' && m' == m[v.nopol := m'[v.nopol]]
    requires o.result.Ok? && o.garage == t[o.result.value.id := o.result.value]
    requires o.result.value.driver == v.driver && SameDetails(m'[v.nopol], o.result.value)
    requires o.result.value.id in t ==> t[o.result.value.id].nopol == v.nopol && t[o.result.value.id].driver == v.driver
    requires o.result.value.nopol == v.nopol
    ensures forall p <- m' ::
              && V.Registered(o.garage, v.driver, p)
              && SameDetails(m'[p], o.garage[V.Find(o.garage, v.driver, p)])
    ensures forall i <- o.garage :: o.garage[i].driver == v.driver ==> o.garage[i].nopol in m'
  {
    var t' := o.garage;
    forall p | p in m' ensures V.Registered(t', v.driver, p) && SameDetails(m'[p], t'[V.Find(t', v.driver, p)]) {
      var i := if p == v.nopol then o.result.value.id else V.Find(t, v.driver, p);
      assert i in t' && t'[i].driver == v.driver && t'[i].nopol == p;
      assert V.Find(t', v.driver, p) == i;
    }
  }

  // ----- All drivers, over a run of registrations -----

  type Lists = map<string, List>

  function ListIn(m: Lists, driver: string): List {
    if driver in m then m[driver] else []
  }

  datatype Registration = Registration(v: V.Vehicle, gen: string, now: int)

  function FakeRun(rs: seq<Registration>): Lists {
    if rs == [] then map[]
    else
      var m, v := FakeRun(rs[..|rs| - 1]), rs[|rs| - 1].v;
      m[v.driver := Put(ListIn(m, v.driver), v)]
  }

  function TableStep(t: V.Garage, drivers: set<string>, r: Registration): V.Outcome {
    V.Register(t, drivers, V.NewVehicle(r.v.driver, r.v.nopol, r.v.kind, r.v.isDefault), r.gen, r.now)
  }

  function TableRun(drivers: set<string>, rs: seq<Registration>): V.Garage {
    if rs == [] then map[] else TableStep(TableRun(drivers, rs[..|rs| - 1]), drivers, rs[|rs| - 1]).garage
  }

  // The requests are normal, their drivers exist, and generated ids are new to the table.
  ghost predicate Acceptable(drivers: set<string>, rs: seq<Registration>) {
    forall k | 0 <= k < |rs| :: AcceptableAt(drivers, rs, k)
  }

  ghost predicate AcceptableAt(drivers: set<string>, rs: seq<Registration>, k: nat)
    requires k < |rs|
  {
    && rs[k].v.driver in drivers && Normalise(rs[k].v.nopol) == rs[k].v.nopol
    && rs[k].gen !in TableRun(drivers, rs[..k])
  }

  ghost predicate MirrorsAll(m: Lists, t: V.Garage) {
    forall d :: Mirrors(ListIn(m, d), t, d)
  }

  lemma StepLeavesOthers(t: V.Garage, drivers: set<string>, r: Registration, i: string)
    ensures
      var t' := TableStep(t, drivers, r).garage;
      && (i in t && t[i].driver != r.v.driver ==> i in t' && t'[i] == t[i])
      && (i in t' && t'[i].driver != r.v.driver ==> i in t && t'[i] == t[i])
  {
  }

  lemma SameMirror(s: List, t: V.Garage, t': V.Garage, d: string)
    requires Mirrors(s, t, d)
    requires forall i | i in t && t[i].driver == d :: i in t' && t'[i] == t[i]
    requires forall i | i in t' && t'[i].driver == d :: i in t && t'[i] == t[i]
    ensures Mirrors(s, t', d)
  {
    var m := ByPlate(s);
    forall p | p in m ensures V.Registered(t', d, p) && SameDetails(m[p], t'[V.Find(t', d, p)]) {
      assert V.Registered(t, d, p);
      var i := V.Find(t, d, p);
      assert i in t' && t'[i] == t[i];
      assert V.Find(t', d, p) == i;
    }
  }

  lemma OtherDriversMirror(s: List, t: V.Garage, drivers: set<string>, r: Registration, d: string)
    requires Mirrors(s, t, d) && d != r.v.driver
    ensures Mirrors(s, TableStep(t, drivers, r).garage, d)
  {
    var t' := TableStep(t, drivers, r).garage;
    forall i {
      StepLeavesOthers(t, drivers, r, i);
    }
    SameMirror(s, t, t', d);
  }

  // Starting empty, the fake and the SQL table hold the same plates with the same details, for every
  // driver, after any run of registrations.
  lemma {:induction false} FakeFollowsRun(drivers: set<string>, rs: seq<Registration>)
    requires Acceptable(drivers, rs)
    ensures MirrorsAll(FakeRun(rs), TableRun(drivers, rs))
  {
    if rs != [] {
      var before, r := rs[..|rs| - 1], rs[|rs| - 1];
      forall k | 0 <= k < |before| ensures AcceptableAt(drivers, before, k) {
        assert AcceptableAt(drivers, rs, k) && before[..k] == rs[..k];
      }
      assert AcceptableAt(drivers, rs, |rs| - 1);
      FakeFollowsRun(drivers, before);
      var m, t := FakeRun(before), TableRun(drivers, before);
      forall d ensures Mirrors(ListIn(FakeRun(rs), d), TableRun(drivers, rs), d) {
        if d == r.v.driver {
          FakeFollowsUpsert(ListIn(m, d), t, drivers, r.v, r.gen, r.now);
        } else {
          OtherDriversMirror(ListIn(m, d), t, drivers, r, d);
        }
      }
    }
  }

  // A Go slice: a backing array and how much of it is in use.
  datatype Slice = Slice(back: array<V.Vehicle>, used: nat)

  class MockVehicleRepository {
    var byDriver: map<string, Slice>
    ghost var Repr: set<object>

    ghost predicate Valid()
      reads this, Repr
    {
      && (forall d <- byDriver :: byDriver[d].back in Repr && byDriver[d].used <= byDriver[d].back.Length)
      && (forall d, e | d in byDriver && e in byDriver && d != e :: byDriver[d].back != byDriver[e].back)
      && this !in Repr
    }

    // The list of a driver.
    ghost function ListOf(driver: string): List
      requires Valid()
      reads this, Repr
    {
      if driver in byDriver then byDriver[driver].back[..byDriver[driver].used] else []
    }

    constructor ()
      ensures Valid() && byDriver == map[] && Repr == {}
    {
      byDriver, Repr := map[], {};
    }

    // append: in place while the backing array has room, into a larger array otherwise.
    method Append(s: Slice, v: V.Vehicle) returns (r: Slice)
      requires s.used <= s.back.Length
      modifies s.back
      ensures r.used == s.used + 1 <= r.back.Length
      ensures r.back[..r.used] == old(s.back[..s.used]) + [v]
      ensures r.back == s.back || fresh(r.back)
      ensures forall k | 0 <= k < s.used :: s.back[k] == old(s.back[k])
    {
      if s.used < s.back.Length {
        s.back[s.used] := v;
        r := Slice(s.back, s.used + 1);
        assert s.back[..s.used] == old(s.back[..s.used]);
        assert s.back[..s.used + 1] == s.back[..s.used] + [v];
      } else {
        var larger := new V.Vehicle[2 * s.used + 1](_ => v);
        for k := 0 to s.used
          invariant s.back[..] == old(s.back[..])
          invariant forall l | 0 <= l < k :: larger[l] == s.back[l]
          invariant forall l | k <= l < larger.Length :: larger[l] == v
        {
          larger[k] := s.back[k];
        }
        r := Slice(larger, s.used + 1);
        assert larger[..s.used] == s.back[..s.used] == old(s.back[..s.used]);
        assert larger[..s.used + 1] == larger[..s.used] + [v];
      }
    }

    // Hands driver d the slice s; the other drivers keep theirs.
    method Assign(d: string, s: Slice)
      requires Valid() && s.used <= s.back.Length
      requires forall e <- byDriver :: e != d ==> byDriver[e].back != s.back
      modifies this
      ensures Valid() && byDriver == old(byDriver)[d := s] && Repr == old(Repr) + {s.back}
    {
      byDriver := byDriver[d := s];
      Repr := Repr + {s.back};
    }

    // Search the driver's slice and change the match in place, else append.
    method Register(v: V.Vehicle) returns (r: V.Vehicle)
      requires Valid()
      modifies this, Repr
      ensures Valid() && fresh(Repr - old(Repr))
      ensures byDriver.Keys == old(byDriver.Keys) + {v.driver}
      ensures ListOf(v.driver) == Put(old(ListOf(v.driver)), v)
      ensures forall d | d != v.driver :: ListOf(d) == old(ListOf(d))
      ensures r in ListOf(v.driver) && r.nopol == Normalise(v.nopol)
    {
      var nopol := Normalise(v.nopol);
      var vehicles: Slice;
      if v.driver in byDriver {
        vehicles := byDriver[v.driver];
      } else {
        var none := new V.Vehicle[0];
        vehicles := Slice(none, 0);
      }
      ghost var before := vehicles.back[..vehicles.used];
      assert before == old(ListOf(v.driver));
      var i := 0;
      while i < vehicles.used && vehicles.back[i].nopol != nopol
        invariant i <= vehicles.used
        invariant forall k | 0 <= k < i :: before[k].nopol != nopol
      {
        i := i + 1;
      }
      assert i == Find(before, nopol);
      if i < vehicles.used {
        r := vehicles.back[i].(kind := v.kind, isDefault := v.isDefault);
        vehicles.back[i] := r;
        assert vehicles.back[..vehicles.used] == before[i := r];
        Assign(v.driver, vehicles);
        assert ListOf(v.driver)[i] == r;
      } else {
        r := v.(nopol := nopol, id := MockId(v, nopol));
        var longer := Append(vehicles, r);
        Assign(v.driver, longer);
        assert ListOf(v.driver)[i] == r;
      }
    }

    // A copy, which no later call touches.
    method ListByDriverID(driver: string) returns (out: array<V.Vehicle>)
      requires Valid()
      ensures fresh(out) && out[..] == ListOf(driver)
    {
      if driver !in byDriver {
        out := new V.Vehicle[0];
        return;
      }
      var s := byDriver[driver];
      out := new V.Vehicle[s.used](k requires 0 <= k < s.used && s.used <= s.back.Length reads s.back => s.back[k]);
    }

    // A list already handed out stays what it was through any registration.
    method ListThenRegister(driver: string, v: V.Vehicle) returns (out: array<V.Vehicle>)
      requires Valid()
      modifies this, Repr
      ensures Valid() && fresh(out) && out[..] == old(ListOf(driver))
      ensures ListOf(v.driver) == Put(old(ListOf(v.driver)), v)
    {
      out := ListByDriverID(driver);
      var _ := Register(v);
    }
  }
}
