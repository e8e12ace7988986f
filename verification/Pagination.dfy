/** ListUsers: newest first, in pages. */
module Pagination {
  import opened Wrappers
  import opened OrderBy
  import opened Users

  const DEFAULT_LIST_LIMIT := 50
  const MAX_LIST_LIMIT := 200

  function EffectiveLimit(limit: int): nat {
    var l := if limit <= 0 then DEFAULT_LIST_LIMIT else limit;
    if l > MAX_LIST_LIMIT then MAX_LIST_LIMIT else l
  }

  function EffectiveOffset(offset: int): nat {
    if offset < 0 then 0 else offset
  }

  // WHERE status != 'DELETED' [AND status = $5]
  predicate Listable(status: Status, filter: Option<Status>) {
    status != Deleted && (filter.Some? ==> status == filter.value)
  }

  // ORDER BY created_at DESC
  function ListRanks(t: Table, filter: Option<Status>): Ranks {
    map i | i in t && Listable(t[i].status, filter) :: Rank(-t[i].createdAt, 0)
  }

  // The whole listing, for rows created at different times.
  ghost function Listing(t: Table, filter: Option<Status>): seq<string> {
    Sorted(ListRanks(t, filter))
  }

  function Min(a: nat, b: nat): nat {
    if a <= b then a else b
  }

  // LIMIT $3 OFFSET $4
  function Page(s: seq<string>, limit: nat, offset: nat): seq<string> {
    s[Min(offset, |s|)..Min(offset + limit, |s|)]
  }

  // What List answers: the page at the limit and offset it clamps.
  function ListAnswer(s: seq<string>, limit: int, offset: int): seq<string> {
    Page(s, EffectiveLimit(limit), EffectiveOffset(offset))
  }

  // No limit, or a negative one, asks for 50 rows and none gets more than 200; a negative offset is 0.
  // The answer is what lies there, cut off at the end.
  lemma ListAnswerExact(s: seq<string>, limit: int, offset: int)
    ensures EffectiveLimit(limit) == if limit <= 0 then 50 else if limit > 200 then 200 else limit
    ensures
      var page := ListAnswer(s, limit, offset);
      var most := if limit <= 0 then 50 else if limit > 200 then 200 else limit;
      var from := if offset < 0 then 0 else offset;
      && |page| == (if |s| <= from then 0 else if |s| - from < most then |s| - from else most)
      && forall k | 0 <= k < |page| :: page[k] == s[from + k]
  {
  }

  // A client that steps by the limit in force asks for page j at this offset.
  lemma StepAnswer(s: seq<string>, limit: int, j: nat)
    ensures ListAnswer(s, limit, j * EffectiveLimit(limit)) == Page(s, EffectiveLimit(limit), j * EffectiveLimit(limit))
  {
    assert j * EffectiveLimit(limit) >= 0;
  }

  ghost predicate DistinctTimes(t: Table) {
    forall i, j | i in t && j in t && t[i].createdAt == t[j].createdAt :: i == j
  }

  // ----- A table that stays as it is -----

  // The answers to the first n requests of a client that steps by the limit in force.
  function Pages(s: seq<string>, limit: int, n: nat): seq<string> {
    if n == 0 then [] else Pages(s, limit, n - 1) + ListAnswer(s, limit, (n - 1) * EffectiveLimit(limit))
  }

  function Total(s: seq<string>, limit: int, n: nat): nat {
    if n == 0 then 0 else Total(s, limit, n - 1) + |ListAnswer(s, limit, (n - 1) * EffectiveLimit(limit))|
  }

  lemma NextPage(s: seq<string>, l: nat, offset: nat)
    ensures s[..Min(offset, |s|)] + Page(s, l, offset) == s[..Min(offset + l, |s|)]
    ensures Min(offset, |s|) + |Page(s, l, offset)| == Min(offset + l, |s|)
  {
  }

  lemma {:induction false} PagesArePrefix(s: seq<string>, limit: int, n: nat)
    ensures Pages(s, limit, n) == s[..Min(n * EffectiveLimit(limit), |s|)]
    ensures Total(s, limit, n) == Min(n * EffectiveLimit(limit), |s|)
  {
    if n > 0 {
      var l := EffectiveLimit(limit);
      PagesArePrefix(s, limit, n - 1);
      StepAnswer(s, limit, n - 1);
      assert n * l == (n - 1) * l + l;
      NextPage(s, l, (n - 1) * l);
    }
  }

  // Every listable row exactly once, newest first.
  lemma ListingIsNewestFirst(t: Table, filter: Option<Status>)
    requires DistinctTimes(t)
    ensures
      var s := Listing(t, filter);
      && NoRepeats(s) && |s| == |ListRanks(t, filter)|
      && (forall i :: i in s <==>
            i in t && t[i].status != Deleted && (filter == None || filter == Some(t[i].status)))
      && (forall a, b | 0 <= a < b < |s| :: t[s[a]].createdAt > t[s[b]].createdAt)
  {
    var ranks, s := ListRanks(t, filter), Listing(t, filter);
    AnswerLength(ranks, s);
    assert forall i <- s :: i in ranks && i in t;
    forall a, b | 0 <= a < b < |s| ensures t[s[a]].createdAt > t[s[b]].createdAt {
      assert s[a] in ranks && s[b] in ranks && !Before(ranks[s[b]], ranks[s[a]]) && s[a] != s[b];
    }
  }

  // For any requested limit, enough pages give back the listing, as many rows as its total; the
  // first short page is the last that holds anything.
  lemma PagesPartition(s: seq<string>, limit: int, n: nat)
    requires n * EffectiveLimit(limit) >= |s|
    ensures Pages(s, limit, n) == s
    ensures Total(s, limit, n) == |s|
    ensures forall k: nat ::
              |ListAnswer(s, limit, k * EffectiveLimit(limit))| < EffectiveLimit(limit)
              <==> |s| < k * EffectiveLimit(limit) + EffectiveLimit(limit)
  {
    PagesArePrefix(s, limit, n);
    forall k: nat {
      StepAnswer(s, limit, k);
    }
  }

  lemma RanksAreListable(t: Table, filter: Option<Status>)
    ensures |ListRanks(t, filter)|
            == |set i | i in t && t[i].status != Deleted && (filter == None || filter == Some(t[i].status))|
  {
    assert ListRanks(t, filter).Keys
           == set i | i in t && t[i].status != Deleted && (filter == None || filter == Some(t[i].status));
  }

  // So a client that walks an unchanging table sees every listable row exactly once, newest first,
  // and the total it is told is what it saw.
  lemma SnapshotPages(t: Table, filter: Option<Status>, limit: int, n: nat)
    requires DistinctTimes(t) && n * EffectiveLimit(limit) >= |ListRanks(t, filter)|
    ensures
      var seen := Pages(Listing(t, filter), limit, n);
      && NoRepeats(seen)
      && (forall i :: i in seen <==>
            i in t && t[i].status != Deleted && (filter == None || filter == Some(t[i].status)))
      && (forall a, b | 0 <= a < b < |seen| :: t[seen[a]].createdAt > t[seen[b]].createdAt)
    ensures Total(Listing(t, filter), limit, n)
            == |set i | i in t && t[i].status != Deleted && (filter == None || filter == Some(t[i].status))|
  {
    ListingIsNewestFirst(t, filter);
    PagesPartition(Listing(t, filter), limit, n);
    RanksAreListable(t, filter);
  }

  // ----- A table that grows between the pages -----

  // New users, each later than all before, in any number; older rows may be updated meanwhile, but
  // keep their status.
  ghost predicate GrowsTo(t: Table, t': Table) {
    && t.Keys <= t'.Keys
    && (forall i <- t :: t'[i].createdAt == t[i].createdAt && t'[i].status == t[i].status)
    && (forall i, j | i in t && j in t' && j !in t :: t[i].createdAt < t'[j].createdAt)
  }

  lemma InsertGrows(t: Table, u: NewUser, gen: string, now: int)
    requires forall i <- t :: t[i].createdAt < now
    ensures GrowsTo(t, Insert(t, u, gen, now).table)
    ensures DistinctTimes(t) ==> DistinctTimes(Insert(t, u, gen, now).table)
  {
  }

  // The tables a client sees as it fetches one page after another.
  ghost predicate GrowingWalk(ts: seq<Table>) {
    && ts != []
    && (forall k | 0 <= k < |ts| - 1 :: GrowsTo(ts[k], ts[k + 1]))
    && (forall k | 0 <= k < |ts| :: DistinctTimes(ts[k]))
  }

  // The place of a row in the listing.
  function PlaceIn(s: seq<string>, i: string): (k: nat)
    requires i in s
    ensures k < |s| && s[k] == i
  {
    if s[0] == i then 0 else 1 + PlaceIn(s[1..], i)
  }

  // Growth keeps the old listing as the tail of the new one.
  lemma GrowthPrepends(t: Table, t': Table, filter: Option<Status>) returns (newer: seq<string>)
    requires GrowsTo(t, t') && DistinctTimes(t')
    ensures Listing(t', filter) == newer + Listing(t, filter)
  {
    var ranks, ranks' := ListRanks(t, filter), ListRanks(t', filter);
    newer := Sorted(ranks' - ranks.Keys);
    var s := newer + Sorted(ranks);
    forall i ensures i in s <==> i in ranks' {
      assert i in newer <==> i in ranks' - ranks.Keys;
      assert i in Sorted(ranks) <==> i in ranks;
      assert i in ranks ==> i in ranks';
    }
    forall k, l | 0 <= k < l < |s| ensures s[k] != s[l] && !Before(ranks'[s[l]], ranks'[s[k]]) {
      if k < |newer| {
        assert newer[k] in ranks' - ranks.Keys;
        if l < |newer| { assert newer[l] in ranks' - ranks.Keys; }
      }
      if l >= |newer| { assert Sorted(ranks)[l - |newer|] in ranks; }
      if k >= |newer| { assert Sorted(ranks)[k - |newer|] in ranks; }
    }
    SortedIs(ranks', s);
  }

  // Position only grows, by prepending.
  lemma PlaceMovesBack(t: Table, t': Table, filter: Option<Status>, i: string)
    requires GrowsTo(t, t') && DistinctTimes(t') && i in ListRanks(t, filter)
    ensures i in Listing(t, filter) && i in Listing(t', filter)
    ensures PlaceIn(Listing(t, filter), i) <= PlaceIn(Listing(t', filter), i)
  {
    var s, s' := Listing(t, filter), Listing(t', filter);
    var newer := GrowthPrepends(t, t', filter);
    assert i in s && i in s';
    var a, b := PlaceIn(s, i), PlaceIn(s', i);
    assert s'[|newer| + a] == i;
    assert b == |newer| + a;
  }

  lemma OnPage(s: seq<string>, l: nat, offset: nat, i: string)
    requires i in s && offset <= PlaceIn(s, i) < offset + l
    ensures i in Page(s, l, offset)
  {
    assert Page(s, l, offset)[PlaceIn(s, i) - offset] == i;
  }

  // Row i is in the answer to request j of a client that steps by the limit in force.
  ghost predicate SeenAt(ts: seq<Table>, filter: Option<Status>, limit: int, i: string, j: nat)
    requires j < |ts|
  {
    i in ListAnswer(Listing(ts[j], filter), limit, j * EffectiveLimit(limit))
  }

  lemma PastPage(s: seq<string>, limit: int, j: nat, i: string)
    requires i in s && j * EffectiveLimit(limit) <= PlaceIn(s, i)
    requires i !in ListAnswer(s, limit, j * EffectiveLimit(limit))
    ensures (j + 1) * EffectiveLimit(limit) <= PlaceIn(s, i)
  {
    var l := EffectiveLimit(limit);
    StepAnswer(s, limit, j);
    if PlaceIn(s, i) < j * l + l { OnPage(s, l, j * l, i); }
    assert (j + 1) * l == j * l + l;
  }

  // A row not seen yet lies beyond every page fetched so far.
  lemma {:induction false} NotYetSeen(ts: seq<Table>, filter: Option<Status>, limit: int, i: string, k: nat)
    requires GrowingWalk(ts) && k < |ts| && i in ListRanks(ts[0], filter)
    requires forall j | 0 <= j < k :: !SeenAt(ts, filter, limit, i, j)
    ensures i in ListRanks(ts[k], filter) && i in Listing(ts[k], filter)
    ensures k * EffectiveLimit(limit) <= PlaceIn(Listing(ts[k], filter), i)
  {
    if k > 0 {
      NotYetSeen(ts, filter, limit, i, k - 1);
      assert !SeenAt(ts, filter, limit, i, k - 1);
      PastPage(Listing(ts[k - 1], filter), limit, k - 1, i);
      PlaceMovesBack(ts[k - 1], ts[k], filter, i);
    }
  }

  // A walk by the effective limit until a short page misses no row that was listable at the
  // start, however many users were created on the way.
  lemma WalkMissesNothing(ts: seq<Table>, filter: Option<Status>, limit: int, i: string)
    requires GrowingWalk(ts) && i in ts[0]
    requires ts[0][i].status != Deleted && (filter == None || filter == Some(ts[0][i].status))
    requires
      var l, last := EffectiveLimit(limit), |ts| - 1;
      |ListAnswer(Listing(ts[last], filter), limit, last * l)| < l
    ensures exists j | 0 <= j < |ts| :: SeenAt(ts, filter, limit, i, j)
  {
    var l, last := EffectiveLimit(limit), |ts| - 1;
    if forall j | 0 <= j < last :: !SeenAt(ts, filter, limit, i, j) {
      NotYetSeen(ts, filter, limit, i, last);
      StepAnswer(Listing(ts[last], filter), limit, last);
      OnPage(Listing(ts[last], filter), l, last * l, i);
      assert SeenAt(ts, filter, limit, i, last);
    }
  }

  // ----- A deletion between two pages -----

  lemma {:induction false} PlaceWithout(s: seq<string>, x: string, i: string)
    requires NoRepeats(s) && x in s && i in s && x != i
    ensures i in Without(s, x)
    ensures PlaceIn(Without(s, x), i) == PlaceIn(s, i) - if PlaceIn(s, x) < PlaceIn(s, i) then 1 else 0
  {
    if s[0] == x {
      assert x !in s[1..];
      WithoutAbsent(s[1..], x);
    } else if s[0] != i {
      PlaceWithout(s[1..], x, i);
    }
  }

  lemma RanksDistinct(t: Table, filter: Option<Status>)
    requires DistinctTimes(t)
    ensures Distinct(ListRanks(t, filter))
  {
    var ranks := ListRanks(t, filter);
    forall i, j | i in ranks && j in ranks && ranks[i] == ranks[j] ensures i == j {
      assert t[i].createdAt == t[j].createdAt;
    }
  }

  lemma RanksWithout(t: Table, filter: Option<Status>, x: string, now: int)
    ensures ListRanks(MarkDeleted(t, x, now), filter) == ListRanks(t, filter) - {x}
  {
    var ranks, t' := ListRanks(t, filter), MarkDeleted(t, x, now);
    var ranks' := ListRanks(t', filter);
    assert x !in ranks';
    forall i | i != x ensures i in ranks' <==> i in ranks
             ensures i in ranks ==> ranks'[i] == ranks[i] {
      assert i in t' <==> i in t;
      assert i in t ==> t'[i] == t[i];
    }
  }

  lemma DeletionMovesUp(t: Table, filter: Option<Status>, x: string, i: string, now: int)
    requires DistinctTimes(t) && x in ListRanks(t, filter) && i in ListRanks(t, filter) && x != i
    ensures
      var s, s' := Listing(t, filter), Listing(MarkDeleted(t, x, now), filter);
      && NoRepeats(s) && NoRepeats(s') && x in s && i in s && i in s'
      && PlaceIn(s', i) == PlaceIn(s, i) - if PlaceIn(s, x) < PlaceIn(s, i) then 1 else 0
  {
    RanksDistinct(t, filter);
    RanksWithout(t, filter, x, now);
    SortedWithout(ListRanks(t, filter), x);
    PlaceWithout(Listing(t, filter), x, i);
  }

  lemma PageShows(s: seq<string>, l: nat, offset: nat, i: string)
    requires NoRepeats(s) && i in s
    ensures i in Page(s, l, offset) <==> offset <= PlaceIn(s, i) < offset + l
  {
    if i in Page(s, l, offset) {
      var a :| 0 <= a < |Page(s, l, offset)| && Page(s, l, offset)[a] == i;
      assert s[offset + a] == i == s[PlaceIn(s, i)];
    } else if offset <= PlaceIn(s, i) < offset + l {
      OnPage(s, l, offset, i);
    }
  }

  // The answer to request m, counted from 0, shows row i.
  predicate Shows(s: seq<string>, limit: int, m: nat, i: string) {
    i in ListAnswer(s, limit, m * EffectiveLimit(limit))
  }

  ghost predicate ShownFrom(s: seq<string>, limit: int, n: nat, i: string) {
    exists m: nat | n <= m :: Shows(s, limit, m, i)
  }

  ghost predicate ShownBefore(s: seq<string>, limit: int, n: nat, i: string) {
    exists m: nat | m < n :: Shows(s, limit, m, i)
  }

  lemma ShowsExact(s: seq<string>, limit: int, m: nat, i: string)
    requires NoRepeats(s) && i in s
    ensures
      var l := EffectiveLimit(limit);
      Shows(s, limit, m, i) <==> m * l <= PlaceIn(s, i) < m * l + l
  {
    StepAnswer(s, limit, m);
    PageShows(s, EffectiveLimit(limit), m * EffectiveLimit(limit), i);
  }

  // The requests from number n on show exactly the rows placed from there on.
  lemma OnLaterPage(s: seq<string>, limit: int, n: nat, i: string)
    requires NoRepeats(s) && i in s
    ensures ShownFrom(s, limit, n, i) <==> n * EffectiveLimit(limit) <= PlaceIn(s, i)
  {
    var l := EffectiveLimit(limit);
    if n * l <= PlaceIn(s, i) {
      var m := PageOf(PlaceIn(s, i), l, n);
      ShowsExact(s, limit, m, i);
    }
    forall m: nat | n <= m && Shows(s, limit, m, i) ensures n * l <= PlaceIn(s, i) {
      ShowsExact(s, limit, m, i);
      if n < m { LaterOffset(n, m, l); }
    }
  }

  lemma PageOf(k: nat, l: nat, n: nat) returns (m: nat)
    requires n * l <= k && l > 0
    ensures n <= m && m * l <= k < m * l + l
    decreases k - n * l
  {
    if k < n * l + l {
      m := n;
    } else {
      assert (n + 1) * l == n * l + l;
      m := PageOf(k, l, n + 1);
    }
  }

  lemma {:induction false} LaterOffset(m: nat, n: nat, l: nat)
    requires m < n
    ensures m * l + l <= n * l
  {
    assert n * l == (n - 1) * l + l;
    if m < n - 1 { LaterOffset(m, n - 1, l); }
  }

  // Row x is deleted after n pages were fetched; i was on none of them. The rest of the walk misses i
  // exactly when i was next and x stood before it.
  lemma DeletionHidesExactly(t: Table, filter: Option<Status>, limit: int, n: nat, x: string, i: string, now: int)
    requires DistinctTimes(t) && x in ListRanks(t, filter) && i in ListRanks(t, filter) && x != i
    requires !ShownBefore(Listing(t, filter), limit, n, i)
    ensures x in Listing(t, filter) && i in Listing(t, filter) && i in Listing(MarkDeleted(t, x, now), filter)
    ensures !ShownFrom(Listing(MarkDeleted(t, x, now), filter), limit, n, i)
            <==> PlaceIn(Listing(t, filter), x) < PlaceIn(Listing(t, filter), i) == n * EffectiveLimit(limit)
  {
    var s, s' := Listing(t, filter), Listing(MarkDeleted(t, x, now), filter);
    DeletionMovesUp(t, filter, x, i, now);
    Unseen(s, limit, n, i);
    OnLaterPage(s', limit, n, i);
  }

  lemma Unseen(s: seq<string>, limit: int, n: nat, i: string)
    requires NoRepeats(s) && i in s && !ShownBefore(s, limit, n, i)
    ensures n * EffectiveLimit(limit) <= PlaceIn(s, i)
  {
    var l := EffectiveLimit(limit);
    var m := PageOf(PlaceIn(s, i), l, 0);
    ShowsExact(s, limit, m, i);
    if n < m { LaterOffset(n, m, l); }
  }

  // A smallest such case: deleting a row already shown moves an unseen row onto a page already fetched.
  lemma DeletionCanHideARow(a: User, b: User, now: int)
    requires a.id != b.id && a.ext != b.ext && a.createdAt > b.createdAt && a.status == Active == b.status
    ensures
      var t: Table := map[a.id := a, b.id := b];
      var ts := [t, MarkDeleted(t, a.id, now)];
      && b.id in Listing(t, None) && b.id in Listing(ts[1], None)
      && (forall j | 0 <= j < 2 :: !SeenAt(ts, None, 1, b.id, j))
      && |ListAnswer(Listing(ts[1], None), 1, 1)| < 1
  {
    var t: Table := map[a.id := a, b.id := b];
    TwoListed(t, a.id, b.id);
    OneListed(MarkDeleted(t, a.id, now), b.id);
  }

  lemma TwoListed(t: Table, i: string, j: string)
    requires t.Keys == {i, j} && i != j && t[i].createdAt > t[j].createdAt
    requires t[i].status != Deleted && t[j].status != Deleted
    ensures Listing(t, None) == [i, j]
  {
    assert Answers(ListRanks(t, None), [i, j]);
    SortedIs(ListRanks(t, None), [i, j]);
  }

  lemma OneListed(t: Table, j: string)
    requires j in t && t[j].status != Deleted && forall i <- t :: i == j || t[i].status == Deleted
    ensures Listing(t, None) == [j]
  {
    assert Answers(ListRanks(t, None), [j]);
    SortedIs(ListRanks(t, None), [j]);
  }
}
