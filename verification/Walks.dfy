/** Walks over ListUsers pages inside concurrent runs. */
module Walks {
  import opened Wrappers
  import opened Users
  import opened Service
  import opened Traces
  import opened Pagination

  // A statement that deletes no row, and inserts none that is not later than all there are.
  ghost predicate Adds(sh: Shared, pc: Pc, now: int) {
    && (pc.Inserting? ==> forall i <- sh.users :: sh.users[i].createdAt < now)
    && (pc.Deleting? ==> !Live(sh.users, pc.id))
  }

  ghost predicate AddsAt(tr: Trace, k: nat)
    requires |tr.ss| == |tr.es| + 1 && k < |tr.es|
  {
    var s, e := tr.ss[k], tr.es[k];
    e.Step? && e.p in s.clients ==> Adds(s.sh, s.clients[e.p].pc, s.now)
  }

  lemma ExecGrows(cfg: Config, sh: Shared, pc: Pc, now: int, gen: string, lost: bool)
    requires Adds(sh, pc, now) && DistinctTimes(sh.users)
    ensures
      var t' := Exec(cfg, sh, pc, now, gen, lost).shared.users;
      GrowsTo(sh.users, t') && DistinctTimes(t')
  {
    match pc
    case Inserting(row) => InsertGrows(sh.users, row, gen, now);
    case Updating(r) =>
    case Deleting(id) =>
    case _ => ExecLeavesUsers(cfg, sh, pc, now, gen, lost);
  }

  lemma GrowsTransitive(a: Table, b: Table, c: Table)
    requires GrowsTo(a, b) && GrowsTo(b, c)
    ensures GrowsTo(a, c)
  {
    forall i, j | i in a && j in c && j !in a ensures a[i].createdAt < c[j].createdAt {
      assert i in b && b[i].createdAt == a[i].createdAt;
      if j in b { assert c[j].createdAt == b[j].createdAt; }
    }
  }

  // While nothing is deleted and the clock moves between creations, the table grows: updates,
  // reads and cache traffic may run as they like.
  lemma {:induction false} TraceGrows(tr: Trace, i: nat, k: nat)
    requires Reaches(tr, k) && i <= k && DistinctTimes(tr.ss[i].sh.users)
    requires forall m | i <= m < k :: AddsAt(tr, m)
    ensures GrowsTo(tr.ss[i].sh.users, tr.ss[k].sh.users) && DistinctTimes(tr.ss[k].sh.users)
  {
    if i < k {
      TraceGrows(tr, i, k - 1);
      assert StepAt(tr, k - 1) && AddsAt(tr, k - 1);
      var s, e := tr.ss[k - 1], tr.es[k - 1];
      if e.Step? {
        ExecGrows(tr.cfg, s.sh, s.clients[e.p].pc, s.now, e.gen, e.lost);
      }
      GrowsTransitive(tr.ss[i].sh.users, s.sh.users, tr.ss[k].sh.users);
    }
  }

  // Page j of the walk is fetched at moment at[j].
  ghost predicate Fetches(tr: Trace, at: seq<nat>) {
    && IsTrace(tr) && at != []
    && (forall j | 0 <= j < |at| :: at[j] < |tr.ss|)
    && (forall j | 0 <= j < |at| - 1 :: at[j] <= at[j + 1])
  }

  lemma {:induction false} FetchesInOrder(tr: Trace, at: seq<nat>, j: nat)
    requires Fetches(tr, at) && j < |at|
    ensures at[0] <= at[j]
  {
    if j > 0 { FetchesInOrder(tr, at, j - 1); }
  }

  // In a concurrent run that deletes nobody during the walk, a client that steps by the effective
  // limit until a short page sees every row that was listable at its first fetch.
  lemma WalkInRun(tr: Trace, at: seq<nat>, filter: Option<Status>, limit: int, i: string)
    requires Fetches(tr, at) && DistinctTimes(tr.ss[at[0]].sh.users)
    requires forall m | at[0] <= m < at[|at| - 1] :: AddsAt(tr, m)
    requires i in tr.ss[at[0]].sh.users
    requires
      var status := tr.ss[at[0]].sh.users[i].status;
      status != Deleted && (filter == None || filter == Some(status))
    requires
      var l, last := EffectiveLimit(limit), |at| - 1;
      |ListAnswer(Listing(tr.ss[at[last]].sh.users, filter), limit, last * l)| < l
    ensures
      var l := EffectiveLimit(limit);
      exists j | 0 <= j < |at| :: i in ListAnswer(Listing(tr.ss[at[j]].sh.users, filter), limit, j * l)
  {
    var ts := seq(|at|, j requires 0 <= j < |at| => tr.ss[at[j]].sh.users);
    forall j | 0 <= j < |at| - 1 ensures GrowsTo(ts[j], ts[j + 1]) {
      AllGrow(tr, at, j);
      AllGrow(tr, at, j + 1);
      TraceGrows(tr, at[j], at[j + 1]);
    }
    forall j | 0 <= j < |at| ensures DistinctTimes(ts[j]) {
      AllGrow(tr, at, j);
    }
    WalkMissesNothing(ts, filter, limit, i);
    var j :| 0 <= j < |ts| && SeenAt(ts, filter, limit, i, j);
  }

  lemma {:induction false} FetchesLast(tr: Trace, at: seq<nat>, j: nat)
    requires Fetches(tr, at) && j < |at|
    ensures at[j] <= at[|at| - 1]
    decreases |at| - j
  {
    if j < |at| - 1 { FetchesLast(tr, at, j + 1); }
  }

  lemma AllGrow(tr: Trace, at: seq<nat>, j: nat)
    requires Fetches(tr, at) && DistinctTimes(tr.ss[at[0]].sh.users) && j < |at|
    requires forall m | at[0] <= m < at[|at| - 1] :: AddsAt(tr, m)
    ensures at[0] <= at[j] <= at[|at| - 1] && DistinctTimes(tr.ss[at[j]].sh.users)
  {
    FetchesInOrder(tr, at, j);
    FetchesLast(tr, at, j);
    TraceGrows(tr, at[0], at[j]);
  }
}
