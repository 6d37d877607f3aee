/** Ranking primitives over the reals (src/ai/ranking.ts). */
module Ranking {
  import opened Lists
  import opened Sorting

  type Id = string

  // ----------------------------------------------------------- cosine similarity

  function Dot(a: seq<real>, b: seq<real>): real
    requires |a| == |b|
  {
    if |a| == 0 then 0.0
    else Dot(a[..|a| - 1], b[..|b| - 1]) + a[|a| - 1] * b[|b| - 1]
  }

  lemma {:induction false} NormNonNegative(a: seq<real>)
    ensures Dot(a, a) >= 0.0
  {
    if |a| > 0 {
      NormNonNegative(a[..|a| - 1]);
      SquareNonNegative(a[|a| - 1]);
    }
  }

  lemma SquareNonNegative(x: real)
    ensures x * x >= 0.0
  {
  }

  lemma ProductPositive(x: real, y: real)
    requires x > 0.0 && y > 0.0
    ensures x * y > 0.0
  {
  }

  lemma SquareGrows(p: real, q: real)
    requires 0.0 <= p < q
    ensures p * p < q * q
  {
    ProductPositive(q - p, q + p);
    assert (q - p) * (q + p) == q * q - p * p;
  }

  lemma RootOrder(p: real, q: real)
    requires p >= 0.0
    requires q * q <= p * p
    ensures q <= p
  {
    if q > p {
      SquareGrows(p, q);
    }
  }

  /** One step of the Cauchy-Schwarz induction. */
  lemma CauchySchwarzStep(d: real, na: real, nb: real, x: real, y: real)
    requires na >= 0.0 && nb >= 0.0
    requires d * d <= na * nb
    ensures (d + x * y) * (d + x * y) <= (na + x * x) * (nb + y * y)
  {
    var u, v := na * (y * y), nb * (x * x);
    SquareNonNegative(x);
    SquareNonNegative(y);
    SquareNonNegative(u - v);
    SquareNonNegative(x * y);
    var p, q := u + v, 2.0 * (d * (x * y));
    var xy2 := (x * y) * (x * y);
    assert xy2 == (x * x) * (y * y);
    assert u * v == (na * nb) * xy2;
    assert q * q == 4.0 * ((d * d) * xy2);
    assert (d * d) * xy2 <= (na * nb) * xy2;
    assert p * p == (u - v) * (u - v) + 4.0 * (u * v);
    RootOrder(p, q);
    assert (d + x * y) * (d + x * y) == d * d + q + xy2;
    assert (na + x * x) * (nb + y * y) == na * nb + p + (x * x) * (y * y);
  }

  /** Cauchy-Schwarz for the sums that `cosineSimilarity` accumulates. */
  lemma {:induction false} CauchySchwarz(a: seq<real>, b: seq<real>)
    requires |a| == |b|
    ensures Dot(a, b) * Dot(a, b) <= Dot(a, a) * Dot(b, b)
  {
    if |a| > 0 {
      var a', b' := a[..|a| - 1], b[..|b| - 1];
      CauchySchwarz(a', b');
      NormNonNegative(a');
      NormNonNegative(b');
      CauchySchwarzStep(Dot(a', b'), Dot(a', a'), Dot(b', b'), a[|a| - 1], b[|b| - 1]);
    }
  }

  /** `sqrt` is the square root on the non-negative reals. */
  ghost predicate IsSquareRoot(sqrt: real -> real) {
    forall x :: x >= 0.0 ==> sqrt(x) >= 0.0 && sqrt(x) * sqrt(x) == x
  }

  /** The three sums of the source's loop. */
  method Accumulate(a: seq<real>, b: seq<real>) returns (dot: real, na: real, nb: real)
    requires |a| == |b|
    ensures dot == Dot(a, b) && na == Dot(a, a) && nb == Dot(b, b)
  {
    dot, na, nb := 0.0, 0.0, 0.0;
    for i := 0 to |a|
      invariant dot == Dot(a[..i], b[..i]) && na == Dot(a[..i], a[..i]) && nb == Dot(b[..i], b[..i])
    {
      var x, y := a[i], b[i];
      assert a[..i + 1][..i] == a[..i] && b[..i + 1][..i] == b[..i];
      dot, na, nb := dot + x * y, na + x * x, nb + y * y;
    }
    assert a[..|a|] == a && b[..|b|] == b;
  }

  /** The similarity is the normalised scalar product, lies in [-1, 1], and is 0 on degenerate input. */
  method CosineSimilarity(a: seq<real>, b: seq<real>, sqrt: real -> real) returns (r: real)
    requires IsSquareRoot(sqrt)
    ensures |a| != |b| ==> r == 0.0
    ensures |a| == |b| && (Dot(a, a) == 0.0 || Dot(b, b) == 0.0) ==> r == 0.0
    ensures |a| == |b| ==> r * sqrt(Dot(a, a) * Dot(b, b)) == Dot(a, b)
    ensures -1.0 <= r <= 1.0
  {
    if |a| != |b| || |a| == 0 {
      assert |a| == |b| ==> Dot(a, b) == 0.0;
      return 0.0;
    }
    var dot, na, nb := Accumulate(a, b);
    CauchySchwarz(a, b);
    NormNonNegative(a);
    NormNonNegative(b);
    if na == 0.0 || nb == 0.0 {
      ZeroOrPositiveNorm(a);
      ZeroOrPositiveNorm(b);
      ZeroVectorDot(a, b);
      return 0.0;
    }
    r := Quotient(dot, na, nb, sqrt);
  }

  ghost predicate AllZero(a: seq<real>) {
    forall i :: 0 <= i < |a| ==> a[i] == 0.0
  }

  lemma {:induction false} ZeroOrPositiveNorm(a: seq<real>)
    ensures AllZero(a) || Dot(a, a) > 0.0
  {
    if |a| > 0 {
      var front, x := a[..|a| - 1], a[|a| - 1];
      ZeroOrPositiveNorm(front);
      NormNonNegative(front);
      AddSquare(Dot(front, front), x);
      assert forall i :: 0 <= i < |a| - 1 ==> a[i] == front[i];
    }
  }

  lemma AddProduct(n: real, x: real, y: real)
    requires n >= 0.0 && x > 0.0 && y > 0.0
    ensures n + x * y > 0.0
  {
  }

  lemma AddSquare(n: real, x: real)
    requires n >= 0.0
    ensures n > 0.0 || x != 0.0 ==> n + x * x > 0.0
  {
    if x > 0.0 {
      AddProduct(n, x, x);
    } else if x < 0.0 {
      AddProduct(n, -x, -x);
      assert (-x) * (-x) == x * x;
    }
  }

  lemma {:induction false} ZeroVectorDot(a: seq<real>, b: seq<real>)
    requires |a| == |b| && (AllZero(a) || AllZero(b))
    ensures Dot(a, b) == 0.0
  {
    if |a| > 0 {
      ZeroVectorDot(a[..|a| - 1], b[..|b| - 1]);
    }
  }

  /** `dot / Math.sqrt(na * nb)`. */
  function Quotient(dot: real, na: real, nb: real, sqrt: real -> real): (r: real)
    requires IsSquareRoot(sqrt)
    requires na > 0.0 && nb > 0.0
    requires dot * dot <= na * nb
    ensures r * sqrt(na * nb) == dot
    ensures -1.0 <= r <= 1.0
  {
    ProductPositive(na, nb);
    var root := sqrt(na * nb);
    assert root >= 0.0 && root * root == na * nb;
    assert root > 0.0;
    RootOrder(root, dot);
    assert (-dot) * (-dot) == dot * dot;
    RootOrder(root, -dot);
    QuotientBounds(dot, root);
    dot / root
  }

  lemma ScalingGrows(r: real, root: real)
    requires root > 0.0 && r > 1.0
    ensures r * root > root
  {
    ProductPositive(r - 1.0, root);
    assert (r - 1.0) * root == r * root - root;
  }

  lemma QuotientBounds(d: real, root: real)
    requires root > 0.0
    requires -root <= d <= root
    ensures -1.0 <= d / root <= 1.0
    ensures d / root * root == d
  {
    var r := d / root;
    assert r * root == d;
    assert (-r) * root == -d;
    if r > 1.0 {
      ScalingGrows(r, root);
    } else if -r > 1.0 {
      ScalingGrows(-r, root);
    }
  }

  // ------------------------------------------------------ reciprocal rank fusion

  const RRF_K := 60

  function Share(k: nat, rank: nat): real {
    1.0 / (k + rank + 1) as real
  }

  /** What `list` adds to `id`'s score: one share for each position it occupies. */
  function ListScore(list: seq<Id>, k: nat, id: Id): real {
    if |list| == 0 then 0.0
    else
      var n := |list| - 1;
      ListScore(list[..n], k, id) + (if list[n] == id then Share(k, n) else 0.0)
  }

  function Score(lists: seq<seq<Id>>, k: nat, id: Id): real {
    if |lists| == 0 then 0.0
    else Score(lists[..|lists| - 1], k, id) + ListScore(lists[|lists| - 1], k, id)
  }

  ghost predicate Occurs(lists: seq<seq<Id>>, id: Id) {
    exists i :: 0 <= i < |lists| && id in lists[i]
  }

  /** The map holds the fused score of exactly the ids that occur in some list. */
  method ReciprocalRankFusion(lists: seq<seq<Id>>, k: nat) returns (scores: map<Id, real>)
    ensures forall id :: id in scores <==> Occurs(lists, id)
    ensures forall id :: id in scores ==> scores[id] == Score(lists, k, id)
  {
    scores := map[];
    for l := 0 to |lists|
      invariant forall id :: id in scores <==> Occurs(lists[..l], id)
      invariant forall id :: (if id in scores then scores[id] else 0.0) == Score(lists[..l], k, id)
    {
      var list := lists[l];
      ghost var before := scores;
      for rank := 0 to |list|
        invariant forall id :: id in scores <==> id in before || id in list[..rank]
        invariant forall id :: (if id in scores then scores[id] else 0.0)
                            == Score(lists[..l], k, id) + ListScore(list[..rank], k, id)
      {
        var id := list[rank];
        assert list[..rank + 1][..rank] == list[..rank];
        assert list[..rank + 1] == list[..rank] + [id];
        scores := scores[id := (if id in scores then scores[id] else 0.0) + Share(k, rank)];
      }
      assert list[..|list|] == list;
      assert lists[..l + 1][..l] == lists[..l];
      assert lists[..l + 1] == lists[..l] + [list];
      forall id ensures Occurs(lists[..l + 1], id) <==> Occurs(lists[..l], id) || id in list {
        if id in list { assert id in lists[..l + 1][l]; }
        if Occurs(lists[..l], id) {
          var i :| 0 <= i < l && id in lists[..l][i];
          assert id in lists[..l + 1][i];
        }
      }
    }
    assert lists[..|lists|] == lists;
  }

  lemma ShareDecreases(k: nat, i: nat, j: nat)
    ensures Share(k, i) > 0.0
    ensures i < j ==> Share(k, i) > Share(k, j)
  {
    var x, y := (k + i + 1) as real, (k + j + 1) as real;
    assert (1.0 / x) * x == 1.0;
    assert (1.0 / y) * y == 1.0;
    if i < j {
      assert 1.0 / x > 1.0 / y by {
        assert 1.0 / x - 1.0 / y == (y - x) / (x * y);
      }
    }
  }

  lemma {:induction false} AbsentScoresNothing(list: seq<Id>, k: nat, id: Id)
    requires id !in list
    ensures ListScore(list, k, id) == 0.0
  {
    if |list| > 0 {
      AbsentScoresNothing(list[..|list| - 1], k, id);
    }
  }

  lemma {:induction false} PresentScoresItsRank(list: seq<Id>, k: nat, i: nat)
    requires Distinct(list) && i < |list|
    ensures ListScore(list, k, list[i]) == Share(k, i)
  {
    var n := |list| - 1;
    var front := list[..n];
    assert Distinct(front);
    if i == n {
      assert list[i] !in front;
      AbsentScoresNothing(front, k, list[i]);
    } else {
      PresentScoresItsRank(front, k, i);
      assert front[i] == list[i];
    }
  }

  /** `a` is on the list, ahead of `b` if `b` is on it too. */
  ghost predicate Ahead(list: seq<Id>, a: Id, b: Id) {
    a in list && forall i, j :: 0 <= i < |list| && 0 <= j < |list| && list[i] == a && list[j] == b ==> i < j
  }

  lemma AheadScoresMore(list: seq<Id>, k: nat, a: Id, b: Id)
    requires Distinct(list) && Ahead(list, a, b)
    ensures ListScore(list, k, a) > ListScore(list, k, b)
  {
    var i :| 0 <= i < |list| && list[i] == a;
    PresentScoresItsRank(list, k, i);
    if b in list {
      var j :| 0 <= j < |list| && list[j] == b;
      PresentScoresItsRank(list, k, j);
      ShareDecreases(k, i, j);
    } else {
      AbsentScoresNothing(list, k, b);
      ShareDecreases(k, i, i);
    }
  }

  /** An id on every list, ahead of another wherever both occur, has the strictly higher fused score. */
  lemma {:induction false} FusionKeepsAgreement(lists: seq<seq<Id>>, k: nat, a: Id, b: Id)
    requires lists != []
    requires forall i :: 0 <= i < |lists| ==> Distinct(lists[i]) && Ahead(lists[i], a, b)
    ensures Score(lists, k, a) > Score(lists, k, b)
  {
    var n := |lists| - 1;
    AheadScoresMore(lists[n], k, a, b);
    if n > 0 {
      FusionKeepsAgreement(lists[..n], k, a, b);
    } else {
      assert lists[..0] == [];
    }
  }

  // ---------------------------------------------------------------- sorting by score

  /** The comparator "higher score first, ties in collation order". */
  function ByScore(score: Id -> real, collate: (Id, Id) -> bool): (Id, Id) -> bool {
    (a, b) => score(a) > score(b) || (score(a) == score(b) && collate(a, b))
  }

  function SortIdsByScore(ids: seq<Id>, score: Id -> real, collate: (Id, Id) -> bool): seq<Id> {
    Sort(Filter(ids, (id: Id) => score(id) > 0.0), ByScore(score, collate))
  }

  lemma ByScoreIsTotal(score: Id -> real, collate: (Id, Id) -> bool)
    requires TotalPreorder(collate)
    ensures TotalPreorder(ByScore(score, collate))
  {
  }

  /** Some two different ids with positive score tie on score and on collation. */
  ghost predicate Tied(ids: seq<Id>, score: Id -> real, collate: (Id, Id) -> bool) {
    exists i, j :: 0 <= i < |ids| && 0 <= j < |ids| && Ties(ids[i], ids[j], score, collate)
  }

  ghost predicate Ties(a: Id, b: Id, score: Id -> real, collate: (Id, Id) -> bool) {
    a != b && score(a) == score(b) > 0.0 && collate(a, b) && collate(b, a)
  }

  lemma {:induction false} FilterPermutes(s: seq<Id>, t: seq<Id>, p: Id -> bool)
    requires multiset(s) == multiset(t)
    ensures multiset(Filter(s, p)) == multiset(Filter(t, p))
  {
    forall x ensures multiset(Filter(s, p))[x] == multiset(Filter(t, p))[x] {
      FilterCount(s, p, x);
      FilterCount(t, p, x);
    }
  }

  lemma {:induction false} FilterCount(s: seq<Id>, p: Id -> bool, x: Id)
    ensures multiset(Filter(s, p))[x] == if p(x) then multiset(s)[x] else 0
  {
    if s != [] {
      FilterCount(s[1..], p, x);
      assert s == [s[0]] + s[1..];
    }
  }

  lemma {:induction false} TiedInsertsDiffer(a: Id, b: Id, s: seq<Id>, leq: (Id, Id) -> bool)
    requires TotalPreorder(leq)
    requires a != b && leq(a, b) && leq(b, a)
    ensures Insert(a, Insert(b, s, leq), leq) != Insert(b, Insert(a, s, leq), leq)
  {
    if s == [] || leq(a, s[0]) {
      assert s != [] ==> leq(b, s[0]);
      assert Insert(a, Insert(b, s, leq), leq)[0] == a;
      assert Insert(b, Insert(a, s, leq), leq)[0] == b;
    } else {
      assert !leq(b, s[0]);
      TiedInsertsDiffer(a, b, s[1..], leq);
      var x := Insert(a, Insert(b, s, leq), leq);
      var y := Insert(b, Insert(a, s, leq), leq);
      assert x[1..] == Insert(a, Insert(b, s[1..], leq), leq);
      assert y[1..] == Insert(b, Insert(a, s[1..], leq), leq);
    }
  }

  /**
   The result depends on the ids alone, not on the order they come in, exactly when no two different
   ids of positive score tie on both score and collation.
   */
  lemma SortIndependentOfInputOrder(ids: seq<Id>, score: Id -> real, collate: (Id, Id) -> bool)
    requires TotalPreorder(collate)
    ensures (forall p: seq<Id> :: multiset(p) == multiset(ids) ==>
               SortIdsByScore(p, score, collate) == SortIdsByScore(ids, score, collate))
       <==> !Tied(ids, score, collate)
  {
    ByScoreIsTotal(score, collate);
    if Tied(ids, score, collate) {
      var i, j :| 0 <= i < |ids| && 0 <= j < |ids| && Ties(ids[i], ids[j], score, collate);
      if i < j { TieShows(ids, i, j, score, collate); } else { TieShows(ids, j, i, score, collate); }
    } else {
      forall p: seq<Id> | multiset(p) == multiset(ids)
        ensures SortIdsByScore(p, score, collate) == SortIdsByScore(ids, score, collate)
      {
        NoTieUnique(p, ids, score, collate);
      }
    }
  }

  lemma NoTieUnique(p: seq<Id>, ids: seq<Id>, score: Id -> real, collate: (Id, Id) -> bool)
    requires TotalPreorder(collate)
    requires multiset(p) == multiset(ids) && !Tied(ids, score, collate)
    ensures SortIdsByScore(p, score, collate) == SortIdsByScore(ids, score, collate)
  {
    var keep := (id: Id) => score(id) > 0.0;
    var leq := ByScore(score, collate);
    ByScoreIsTotal(score, collate);
    var fp, fi := Filter(p, keep), Filter(ids, keep);
    FilterPermutes(p, ids, keep);
    SortPermutes(fp, leq);
    SortPermutes(fi, leq);
    SortSorts(fp, leq);
    SortSorts(fi, leq);
    var a, b := Sort(fp, leq), Sort(fi, leq);
    forall x | x in a ensures x in ids && keep(x) {
      assert x in multiset(a) && x in multiset(fi);
      FilterMembers(ids, keep);
    }
    forall x, y | x in a && y in a && leq(x, y) && leq(y, x) ensures x == y {
      NoTieEqual(x, y, ids, score, collate);
    }
    SortedUnique(a, b, leq);
  }

  lemma NoTieEqual(x: Id, y: Id, ids: seq<Id>, score: Id -> real, collate: (Id, Id) -> bool)
    requires !Tied(ids, score, collate) && x in ids && y in ids && score(x) > 0.0 && score(y) > 0.0
    requires ByScore(score, collate)(x, y) && ByScore(score, collate)(y, x)
    ensures x == y
  {
    var i :| 0 <= i < |ids| && ids[i] == x;
    var j :| 0 <= j < |ids| && ids[j] == y;
    assert !Ties(ids[i], ids[j], score, collate);
  }

  lemma TieShows(ids: seq<Id>, i: nat, j: nat, score: Id -> real, collate: (Id, Id) -> bool)
    requires TotalPreorder(collate)
    requires i < j < |ids|
    requires Ties(ids[i], ids[j], score, collate)
    ensures exists p: seq<Id> :: multiset(p) == multiset(ids)
              && SortIdsByScore(p, score, collate) != SortIdsByScore(ids, score, collate)
  {
    var a, b := ids[i], ids[j];
    var rest := ids[..i] + ids[i + 1..j] + ids[j + 1..];
    var p, q := [a, b] + rest, [b, a] + rest;
    PairFirst(ids, i, j);
    TiedArrangementsDiffer(a, b, rest, score, collate);
    var shows := if SortIdsByScore(p, score, collate) != SortIdsByScore(ids, score, collate) then p else q;
    assert multiset(shows) == multiset(ids);
  }

  lemma PairFirst(ids: seq<Id>, i: nat, j: nat)
    requires i < j < |ids|
    ensures var rest := ids[..i] + ids[i + 1..j] + ids[j + 1..];
      multiset([ids[i], ids[j]] + rest) == multiset(ids) && multiset([ids[j], ids[i]] + rest) == multiset(ids)
  {
    assert ids == ids[..i] + [ids[i]] + ids[i + 1..j] + [ids[j]] + ids[j + 1..];
  }

  lemma TiedArrangementsDiffer(a: Id, b: Id, rest: seq<Id>, score: Id -> real, collate: (Id, Id) -> bool)
    requires TotalPreorder(collate)
    requires Ties(a, b, score, collate)
    ensures SortIdsByScore([a, b] + rest, score, collate) != SortIdsByScore([b, a] + rest, score, collate)
  {
    var keep := (id: Id) => score(id) > 0.0;
    var leq := ByScore(score, collate);
    ByScoreIsTotal(score, collate);
    FilterPair(a, b, rest, keep);
    FilterPair(b, a, rest, keep);
    SortPair(a, b, Filter(rest, keep), leq);
    SortPair(b, a, Filter(rest, keep), leq);
    TiedInsertsDiffer(a, b, Sort(Filter(rest, keep), leq), leq);
  }

  lemma FilterPair(a: Id, b: Id, rest: seq<Id>, p: Id -> bool)
    requires p(a) && p(b)
    ensures Filter([a, b] + rest, p) == [a, b] + Filter(rest, p)
  {
    var s := [a, b] + rest;
    assert s[1..] == [b] + rest;
    assert s[1..][1..] == rest;
  }

  lemma SortPair(a: Id, b: Id, rest: seq<Id>, leq: (Id, Id) -> bool)
    ensures Sort([a, b] + rest, leq) == Insert(a, Insert(b, Sort(rest, leq), leq), leq)
  {
    var s := [a, b] + rest;
    assert s[1..] == [b] + rest;
    assert s[1..][1..] == rest;
  }
}
