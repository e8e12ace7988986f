/** How old a profile read through the cache can be. */
module Staleness {
  import opened Wrappers
  import opened Requests
  import opened Users
  import opened Service
  import opened Traces
  import opened Linearizability

  predicate StepOf(tr: Trace, k: nat, p: nat)
    requires |tr.ss| == |tr.es| + 1 && k < |tr.es|
  {
    tr.es[k].Step? && tr.es[k].p == p && p in tr.ss[k].clients
  }

  // Statement k of call p gives its answer.
  predicate AnswersAt(tr: Trace, k: nat, p: nat, resp: Response)
    requires |tr.ss| == |tr.es| + 1 && k < |tr.es|
  {
    && StepOf(tr, k, p) && !tr.ss[k].clients[p].pc.Done?
    && p in tr.ss[k + 1].clients && tr.ss[k + 1].clients[p].pc == Done(resp)
  }

  // A reader's SET comes at most d after its SELECT.
  ghost predicate Timely(tr: Trace, d: nat)
    requires IsTrace(tr)
  {
    forall i, j, p | 0 <= i < j < |tr.es| && StepOf(tr, i, p) && StepOf(tr, j, p)
                     && tr.ss[i].clients[p].pc.Selecting? && tr.ss[j].clients[p].pc.CacheSet? ::
      tr.ss[j].now <= tr.ss[i].now + d
  }

  // The row of id was exactly u at moment i.
  predicate Current(tr: Trace, i: nat, id: string, u: User)
    requires i < |tr.ss|
  {
    id in tr.ss[i].sh.users && tr.ss[i].sh.users[id] == u
  }

  // A reader about to SET holds the row as its own SELECT saw it.
  lemma {:induction false} ReaderOrigin(tr: Trace, k: nat, p: nat) returns (i: nat)
    requires IsRun(tr) && Reaches(tr, k) && p in tr.ss[k].clients && tr.ss[k].clients[p].pc.CacheSet?
    ensures i < k && StepOf(tr, i, p) && tr.ss[i].clients[p].pc == Selecting(tr.ss[k].clients[p].pc.id)
    ensures Current(tr, i, tr.ss[k].clients[p].pc.id, tr.ss[k].clients[p].pc.user)
  {
    BeganFirst(tr, k, p);
    assert StepAt(tr, k - 1);
    var s := tr.ss[k - 1];
    if p in s.clients && s.clients[p].pc.CacheSet? {
      i := ReaderOrigin(tr, k - 1, p);
    } else {
      i := k - 1;
    }
  }

  // Times are in milliseconds: 300,000 of them are five minutes.

  // An entry was put there by a reader, from a row that was really committed, soon enough.
  lemma {:induction false} EntryOrigin(tr: Trace, d: nat, k: nat, id: string) returns (i: nat)
    requires IsRun(tr) && Reaches(tr, k) && Timely(tr, d) && CacheKey(id) in tr.ss[k].sh.cache
    ensures i <= k && Current(tr, i, id, tr.ss[k].sh.cache[CacheKey(id)].user)
    ensures tr.ss[k].sh.cache[CacheKey(id)].expires <= tr.ss[i].now + d + 300_000
  {
    assert k > 0;
    assert StepAt(tr, k - 1);
    var s, e, key := tr.ss[k - 1], tr.es[k - 1], CacheKey(id);
    if key in s.sh.cache && s.sh.cache[key] == tr.ss[k].sh.cache[key] {
      i := EntryOrigin(tr, d, k - 1, id);
    } else {
      var pc := s.clients[e.p].pc;
      assert pc.CacheSet? && CacheKey(pc.id) == key;
      CacheKeyInjective(pc.id, id);
      i := ReaderOrigin(tr, k - 1, e.p);
      assert StepOf(tr, k - 1, e.p);
    }
  }

  // Whatever happens to cache commands, a profile returned at moment k was the committed row at
  // some moment no earlier than five minutes and d before.
  lemma BoundedStaleness(tr: Trace, d: nat, k: nat, p: nat, id: string, u: User) returns (i: nat)
    requires IsRun(tr) && k < |tr.es| && Timely(tr, d)
    requires AnswersAt(tr, k, p, Profile(Ok(u))) && tr.ss[k].clients[p].call == GetUserByID(id)
    ensures i <= k && Current(tr, i, id, u)
    ensures tr.ss[k].now <= tr.ss[i].now + 300_000 + d
  {
    assert StepAt(tr, k);
    ClientFits(tr, k, p);
    match tr.ss[k].clients[p].pc
    case CacheGet(_) => i := EntryOrigin(tr, d, k, id);
    case CacheSet(_, _) => i := ReaderOrigin(tr, k, p);
    case _ => i := k;
  }

  // Once a row has stayed as it is for longer than five minutes and d, every read answers it.
  lemma SettledRowIsRead(tr: Trace, d: nat, i: nat, k: nat, p: nat, id: string, u: User)
    requires IsRun(tr) && i <= k < |tr.es| && Timely(tr, d)
    requires AnswersAt(tr, k, p, Profile(Ok(u))) && tr.ss[k].clients[p].call == GetUserByID(id)
    requires id in tr.ss[i].sh.users && Current(tr, k, id, tr.ss[i].sh.users[id])
    requires tr.ss[k].now > tr.ss[i].now + 300_000 + d
    ensures u == tr.ss[k].sh.users[id]
  {
    var j := BoundedStaleness(tr, d, k, p, id, u);
    if j < i { UsersEvolve(tr, j, i); }
    UsersEvolve(tr, i, j);
    UsersEvolve(tr, j, k);
  }

  // A read that fails says NotFound, and at that moment there was no such row.
  lemma MissMeansAbsent(tr: Trace, k: nat, p: nat, id: string, err: Error)
    requires IsRun(tr) && k < |tr.es|
    requires AnswersAt(tr, k, p, Profile(Err(err))) && tr.ss[k].clients[p].call == GetUserByID(id)
    ensures err == NotFound && id !in tr.ss[k].sh.users
  {
    assert StepAt(tr, k);
    ClientFits(tr, k, p);
  }

  // ----- The bound is met -----

  // A moment of the scenario below: reader 0, writer 1 and a late reader 2, each at a statement.
  function Scene(id: string, req: UpdateUserRequest, now: int, user: User, cache: map<string, Entry>,
                 pcs: seq<Pc>): State
    requires |pcs| <= 3
  {
    var calls := [GetUserByID(id), UpdateUser(req), GetUserByID(id)];
    State(now, Shared(Single(id, user), map[], cache),
          map p: nat | p < |pcs| :: Client(calls[p], pcs[p]))
  }

  function Single(id: string, user: User): Table {
    map[id := user.(id := id)]
  }

  // Reader 0 selects the row; writer 1 updates it and deletes the key; d later reader 0 sets the
  // old row; just before that entry expires reader 2 begins.
  function SceneAt(d: nat, u: User, k: nat): State {
    var id, ttl := u.id, USER_CACHE_TTL;
    var req := UpdateUserRequest(id, Patch("New", "", ""), u.version);
    var v := u.(name := "New", version := u.version + 1, updatedAt := 0);
    var ok, entry := Profile(Ok(v)), map[CacheKey(id) := Entry(u, d + ttl)];
    var held, read := CacheSet(id, u), Done(Profile(Ok(u)));
    if k == 0 then Scene(id, req, 0, u, map[], [])
    else if k == 1 then Scene(id, req, 0, u, map[], [CacheGet(id)])
    else if k == 2 then Scene(id, req, 0, u, map[], [Selecting(id)])
    else if k == 3 then Scene(id, req, 0, u, map[], [held])
    else if k == 4 then Scene(id, req, 0, u, map[], [held, Updating(req)])
    else if k == 5 then Scene(id, req, 0, v, map[], [held, Invalidate(id, ok)])
    else if k == 6 then Scene(id, req, 0, v, map[], [held, Done(ok)])
    else if k == 7 then Scene(id, req, d, v, map[], [held, Done(ok)])
    else if k == 8 then Scene(id, req, d, v, entry, [read, Done(ok)])
    else if k == 9 then Scene(id, req, d + ttl - 1, v, entry, [read, Done(ok)])
    else if k == 10 then Scene(id, req, d + ttl - 1, v, entry, [read, Done(ok), CacheGet(id)])
    else Scene(id, req, d + ttl - 1, v, entry, [read, Done(ok), read])
  }

  function EventAt(d: nat, u: User, k: nat): Event {
    if k == 0 then Begin(0, GetUserByID(u.id))
    else if k == 3 then Begin(1, UpdateUser(UpdateUserRequest(u.id, Patch("New", "", ""), u.version)))
    else if k == 4 || k == 5 then Step(1, "", false)
    else if k == 6 then Tick(d)
    else if k == 8 then Tick(USER_CACHE_TTL - 1)
    else if k == 9 then Begin(2, GetUserByID(u.id))
    else if k == 10 then Step(2, "", false)
    else Step(0, "", false)
  }

  function Scenario(parses: AddressParser, d: nat, u: User): Trace {
    Trace(Config(true, parses), seq(12, k requires 0 <= k => SceneAt(d, u, k)),
          seq(11, k requires 0 <= k => EventAt(d, u, k)))
  }

  lemma ReaderSelects(parses: AddressParser, d: nat, u: User, k: nat)
    requires k < 3
    ensures StepAt(Scenario(parses, d, u), k)
  {
  }

  lemma WriterBegins(parses: AddressParser, d: nat, u: User)
    requires !Blank(u.id)
    ensures StepAt(Scenario(parses, d, u), 3)
  {
  }

  lemma WriterUpdates(parses: AddressParser, d: nat, u: User)
    requires u.status == Active
    ensures StepAt(Scenario(parses, d, u), 4)
  {
    var v := u.(name := "New", version := u.version + 1, updatedAt := 0);
    assert Update(Single(u.id, u), u.id, Patch("New", "", ""), u.version, 0) == Outcome(Single(u.id, v), Ok(v));
  }

  lemma WriterInvalidates(parses: AddressParser, d: nat, u: User)
    ensures StepAt(Scenario(parses, d, u), 5)
  {
  }

  lemma ReaderSets(parses: AddressParser, d: nat, u: User, k: nat)
    requires 6 <= k < 9
    ensures StepAt(Scenario(parses, d, u), k)
  {
  }

  lemma LateReaderBegins(parses: AddressParser, d: nat, u: User)
    ensures StepAt(Scenario(parses, d, u), 9)
  {
  }

  lemma LateReaderHits(parses: AddressParser, d: nat, u: User)
    ensures StepAt(Scenario(parses, d, u), 10)
  {
  }

  lemma ScenarioIsRun(parses: AddressParser, d: nat, u: User)
    requires u.status == Active && !Blank(u.id)
    ensures IsRun(Scenario(parses, d, u))
  {
    var tr := Scenario(parses, d, u);
    forall k | 0 <= k < |tr.es| ensures StepAt(tr, k) {
      if k < 3 { ReaderSelects(parses, d, u, k); }
      else if k == 3 { WriterBegins(parses, d, u); }
      else if k == 4 { WriterUpdates(parses, d, u); }
      else if k == 5 { WriterInvalidates(parses, d, u); }
      else if k < 9 { ReaderSets(parses, d, u, k); }
      else if k == 9 { LateReaderBegins(parses, d, u); }
      else { LateReaderHits(parses, d, u); }
    }
  }

  lemma SetsInTime(d: nat, u: User, k: nat)
    requires k < 11 && EventAt(d, u, k).Step? && EventAt(d, u, k).p in SceneAt(d, u, k).clients
    requires SceneAt(d, u, k).clients[EventAt(d, u, k).p].pc.CacheSet?
    ensures SceneAt(d, u, k).now <= d
  {
  }

  lemma LateReaderAnswers(parses: AddressParser, d: nat, u: User)
    ensures 2 !in SceneAt(d, u, 9).clients && AnswersAt(Scenario(parses, d, u), 10, 2, Profile(Ok(u)))
  {
  }

  lemma OldRowOnlyAtStart(d: nat, u: User, k: nat)
    requires k <= 10 && u.id in SceneAt(d, u, k).sh.users && SceneAt(d, u, k).sh.users[u.id] == u
    ensures SceneAt(d, u, k).now == 0
  {
  }

  // An update that commits and deletes the key between a reader's SELECT and its SET does not stop a
  // read, begun long after, from returning the row it replaced: that row was last current at
  // the start, one tick less than five minutes and d before.
  lemma StalenessIsReal(parses: AddressParser, d: nat, u: User)
    requires u.status == Active && !Blank(u.id)
    ensures
      var tr := Scenario(parses, d, u);
      && IsRun(tr) && Timely(tr, d)
      && 2 !in tr.ss[9].clients && AnswersAt(tr, 10, 2, Profile(Ok(u)))
      && tr.ss[10].now == tr.ss[0].now + 300_000 + d - 1
      && forall i | 0 <= i <= 10 && Current(tr, i, u.id, u) :: tr.ss[i].now == tr.ss[0].now
  {
    var tr := Scenario(parses, d, u);
    ScenarioIsRun(parses, d, u);
    LateReaderAnswers(parses, d, u);
    forall i, j, p | 0 <= i < j < |tr.es| && StepOf(tr, i, p) && StepOf(tr, j, p)
                     && tr.ss[i].clients[p].pc.Selecting? && tr.ss[j].clients[p].pc.CacheSet?
      ensures tr.ss[j].now <= tr.ss[i].now + d
    {
      SetsInTime(d, u, j);
      UsersEvolve(tr, 0, i);
    }
    forall i | 0 <= i <= 10 && Current(tr, i, u.id, u) ensures tr.ss[i].now == tr.ss[0].now {
      OldRowOnlyAtStart(d, u, i);
    }
  }
}
