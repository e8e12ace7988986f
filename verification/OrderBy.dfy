/** ORDER BY over rows named by their ids: which sequences of ids answer a query. */
module OrderBy {

  // Sorted by major first, then minor, both ascending.
  datatype Rank = Rank(major: int, minor: int)

  type Ranks = map<string, Rank>

  predicate Before(a: Rank, b: Rank) {
    a.major < b.major || (a.major == b.major && a.minor < b.minor)
  }

  ghost predicate Distinct(ranks: Ranks) {
    forall i, j | i in ranks && j in ranks && ranks[i] == ranks[j] :: i == j
  }

  ghost predicate SameMembers(ranks: Ranks, s: seq<string>) {
    forall i :: i in s <==> i in ranks
  }

  ghost predicate NoRepeats(s: seq<string>) {
    forall k, l | 0 <= k < l < |s| :: s[k] != s[l]
  }

  // Every row once, no row before one that should precede it; equal ranks in any order.
  ghost predicate Answers(ranks: Ranks, s: seq<string>) {
    && SameMembers(ranks, s) && NoRepeats(s)
    && forall k, l | 0 <= k < l < |s| :: !Before(ranks[s[l]], ranks[s[k]])
  }

  lemma {:induction false} LeastExists(ranks: Ranks) returns (i: string)
    requires ranks != map[]
    ensures i in ranks
    ensures forall j <- ranks :: !Before(ranks[j], ranks[i])
    decreases |ranks|
  {
    var k :| k in ranks;
    var rest := ranks - {k};
    assert rest.Keys == ranks.Keys - {k};
    i := k;
    if rest != map[] {
      var l := LeastExists(rest);
      assert rest[l] == ranks[l];
      if Before(ranks[l], ranks[k]) { i := l; }
    }
    forall j | j in ranks ensures !Before(ranks[j], ranks[i]) {
      if j != k {
        assert j in rest.Keys && rest[j] == ranks[j];
      }
    }
  }

  lemma AnswerExists(ranks: Ranks)
    ensures exists s :: Answers(ranks, s)
    decreases |ranks|
  {
    if ranks == map[] {
      assert Answers(ranks, []);
    } else {
      var i := LeastExists(ranks);
      var rest := ranks - {i};
      assert rest.Keys == ranks.Keys - {i};
      AnswerExists(rest);
      var s :| Answers(rest, s);
      LeastFirst(ranks, i, s);
    }
  }

  lemma LeastFirst(ranks: Ranks, i: string, s: seq<string>)
    requires i in ranks && (forall j <- ranks :: !Before(ranks[j], ranks[i])) && Answers(ranks - {i}, s)
    ensures Answers(ranks, [i] + s)
  {
    assert forall j :: j in s <==> j in ranks - {i};
    assert forall j <- ranks :: j == i || j in ranks - {i};
  }

  // Distinct ranks leave the database no choice.
  lemma {:induction false} AnswerUnique(ranks: Ranks, s: seq<string>, s': seq<string>)
    requires Distinct(ranks) && Answers(ranks, s) && Answers(ranks, s')
    ensures s == s'
    decreases |s|
  {
    assert s != [] ==> s[0] in ranks && s[0] in s';
    assert s' != [] ==> s'[0] in ranks && s'[0] in s;
    if s != [] {
      var i := s[0];
      assert i in s' && s'[0] in s;
      assert s'[0] == i;
      AnswerTail(ranks, s);
      AnswerTail(ranks, s');
      AnswerUnique(ranks - {i}, s[1..], s'[1..]);
      assert s == [i] + s[1..] && s' == [i] + s'[1..];
    }
  }

  lemma AnswerTail(ranks: Ranks, s: seq<string>)
    requires Answers(ranks, s) && s != []
    ensures Answers(ranks - {s[0]}, s[1..])
  {
    assert s == [s[0]] + s[1..];
    assert s[0] !in s[1..];
  }

  lemma {:induction false} AnswerLength(ranks: Ranks, s: seq<string>)
    requires Answers(ranks, s)
    ensures |s| == |ranks|
    decreases |s|
  {
    if s == [] {
      assert ranks == map[];
    } else {
      AnswerTail(ranks, s);
      AnswerLength(ranks - {s[0]}, s[1..]);
      assert (ranks - {s[0]}).Keys == ranks.Keys - {s[0]} && s[0] in ranks;
    }
  }

  ghost function Sorted(ranks: Ranks): (s: seq<string>)
    ensures Answers(ranks, s)
  {
    AnswerExists(ranks);
    var s :| Answers(ranks, s); s
  }

  lemma SortedIs(ranks: Ranks, s: seq<string>)
    requires Distinct(ranks) && Answers(ranks, s)
    ensures Sorted(ranks) == s
  {
    AnswerUnique(ranks, s, Sorted(ranks));
  }

  // ----- One row changes -----

  function Without(s: seq<string>, i: string): seq<string> {
    if s == [] then []
    else if s[0] == i then Without(s[1..], i)
    else [s[0]] + Without(s[1..], i)
  }

  lemma {:induction false} WithoutAbsent(s: seq<string>, i: string)
    requires i !in s
    ensures Without(s, i) == s
  {
    if s != [] { WithoutAbsent(s[1..], i); }
  }

  lemma {:induction false} WithoutAt(s: seq<string>, k: nat)
    requires k < |s| && NoRepeats(s)
    ensures Without(s, s[k]) == s[..k] + s[k + 1..]
  {
    if k == 0 {
      assert s[0] !in s[1..];
      WithoutAbsent(s[1..], s[0]);
    } else {
      assert s[1..][k - 1] == s[k];
      WithoutAt(s[1..], k - 1);
      assert s[0] != s[k];
      assert s[1..][..k - 1] == s[1..k] && s[1..][k..] == s[k + 1..];
    }
  }

  lemma AnswerDropAt(ranks: Ranks, s: seq<string>, k: nat)
    requires Answers(ranks, s) && k < |s|
    ensures Answers(ranks - {s[k]}, s[..k] + s[k + 1..])
  {
    var t := s[..k] + s[k + 1..];
    assert forall m | 0 <= m < |t| :: t[m] == s[if m < k then m else m + 1];
    forall x ensures x in t <==> x in ranks - {s[k]} {
      if x in s && x != s[k] {
        var l :| 0 <= l < |s| && s[l] == x;
        assert t[if l < k then l else l - 1] == x;
      }
    }
  }

  // Dropping a row keeps the rest in order.
  lemma SortedWithout(ranks: Ranks, i: string)
    requires Distinct(ranks)
    ensures Without(Sorted(ranks), i) == Sorted(ranks - {i})
  {
    var s := Sorted(ranks);
    if i in ranks {
      assert i in s;
      var k :| 0 <= k < |s| && s[k] == i;
      WithoutAt(s, k);
      AnswerDropAt(ranks, s, k);
      SortedIs(ranks - {i}, s[..k] + s[k + 1..]);
    } else {
      WithoutAbsent(s, i);
      assert ranks - {i} == ranks;
    }
  }

  // Changing the rank of one row moves that row only.
  lemma SortedMove(ranks: Ranks, i: string, r: Rank)
    requires Distinct(ranks) && Distinct(ranks[i := r])
    ensures Without(Sorted(ranks[i := r]), i) == Without(Sorted(ranks), i)
  {
    SortedWithout(ranks, i);
    SortedWithout(ranks[i := r], i);
    assert ranks[i := r] - {i} == ranks - {i};
  }
}
