/**
  The retrieval measures the searcher reports: Average Precision of one
  ranked result list against the set of documents judged relevant for its
  query, and the mean of it over all queries.

  A ranked list is the sequence of document ids looked up for the hits, in
  rank order; an id that could not be looked up is `None` and is never
  relevant.  Arithmetic is exact (`real`).
*/
module Evaluation {
  import opened Wrappers

  /** A hit counts when its id was found and is one of the relevant documents. */
  predicate IsRelevant(relevant: set<string>, id: Option<string>)
  {
    id.Some? && id.value in relevant
  }

  /** The number of relevant hits in `ranked`. */
  function Hits(relevant: set<string>, ranked: seq<Option<string>>): (n: nat)
    ensures n <= |ranked|
  {
    if ranked == [] then 0
    else Hits(relevant, ranked[..|ranked| - 1]) + (if IsRelevant(relevant, ranked[|ranked| - 1]) then 1 else 0)
  }

  /** Precision at rank `|ranked|`: the share of the first `|ranked|` hits that are relevant. */
  function PrecisionAt(relevant: set<string>, ranked: seq<Option<string>>): (p: real)
    requires ranked != []
    ensures 0.0 <= p <= 1.0
  {
    Hits(relevant, ranked) as real / |ranked| as real
  }

  /** The sum of the precision at each (1-based) rank that holds a relevant hit. */
  function PrecisionSum(relevant: set<string>, ranked: seq<Option<string>>): real
  {
    if ranked == [] then 0.0
    else PrecisionSum(relevant, ranked[..|ranked| - 1])
         + (if IsRelevant(relevant, ranked[|ranked| - 1]) then PrecisionAt(relevant, ranked) else 0.0)
  }

  /**
    Average Precision: zero when the query has no judgment set or an empty one,
    otherwise the precision sum divided by the number of relevant documents.
  */
  function AveragePrecision(judged: Option<set<string>>, ranked: seq<Option<string>>): real
  {
    if judged.None? || judged.value == {} then 0.0
    else PrecisionSum(judged.value, ranked) / |judged.value| as real
  }

  /** The precision sum lies between zero and the number of relevant hits. */
  lemma {:induction false} PrecisionSumBounds(relevant: set<string>, ranked: seq<Option<string>>)
    ensures 0.0 <= PrecisionSum(relevant, ranked) <= Hits(relevant, ranked) as real
  {
    if ranked != [] {
      PrecisionSumBounds(relevant, ranked[..|ranked| - 1]);
    }
  }

  /** With nothing relevant ranked, the precision sum is zero. */
  lemma {:induction false} PrecisionSumNoHits(relevant: set<string>, ranked: seq<Option<string>>)
    requires forall k :: 0 <= k < |ranked| ==> !IsRelevant(relevant, ranked[k])
    ensures PrecisionSum(relevant, ranked) == 0.0
  {
    if ranked != [] {
      PrecisionSumNoHits(relevant, ranked[..|ranked| - 1]);
    }
  }

  /** Average Precision is never negative. */
  lemma AveragePrecisionNonNegative(judged: Option<set<string>>, ranked: seq<Option<string>>)
    ensures 0.0 <= AveragePrecision(judged, ranked)
  {
    if judged.Some? && judged.value != {} {
      PrecisionSumBounds(judged.value, ranked);
    }
  }

  /** Average Precision is zero when no ranked id is relevant, absent ids included. */
  lemma AveragePrecisionNoHits(judged: Option<set<string>>, ranked: seq<Option<string>>)
    requires judged.Some? ==> forall k :: 0 <= k < |ranked| ==> !IsRelevant(judged.value, ranked[k])
    ensures AveragePrecision(judged, ranked) == 0.0
  {
    if judged.Some? {
      PrecisionSumNoHits(judged.value, ranked);
    }
  }

  lemma QuotientPositive(x: real, n: real)
    requires 0.0 < x && 0.0 < n
    ensures x / n > 0.0
  {
    assert x / n == x * (1.0 / n);
  }

  /** A relevant hit anywhere makes the precision sum positive. */
  lemma {:induction false} PrecisionSumPositive(relevant: set<string>, ranked: seq<Option<string>>, k: nat)
    requires k < |ranked| && IsRelevant(relevant, ranked[k])
    ensures PrecisionSum(relevant, ranked) > 0.0
  {
    var front := ranked[..|ranked| - 1];
    PrecisionSumBounds(relevant, front);
    if k < |ranked| - 1 {
      assert front[k] == ranked[k];
      PrecisionSumPositive(relevant, front, k);
    } else {
      assert Hits(relevant, ranked) >= 1;
      QuotientPositive(Hits(relevant, ranked) as real, |ranked| as real);
    }
  }

  /**
    For a query with relevant documents, Average Precision is zero exactly
    when no ranked id is relevant.
  */
  lemma AveragePrecisionZeroIff(relevant: set<string>, ranked: seq<Option<string>>)
    requires relevant != {}
    ensures AveragePrecision(Some(relevant), ranked) == 0.0
            <==> forall k :: 0 <= k < |ranked| ==> !IsRelevant(relevant, ranked[k])
  {
    if forall k :: 0 <= k < |ranked| ==> !IsRelevant(relevant, ranked[k]) {
      PrecisionSumNoHits(relevant, ranked);
    } else {
      var k :| 0 <= k < |ranked| && IsRelevant(relevant, ranked[k]);
      PrecisionSumPositive(relevant, ranked, k);
      QuotientPositive(PrecisionSum(relevant, ranked), |relevant| as real);
    }
  }

  /** No document id appears twice in the ranking. */
  predicate Distinct(ranked: seq<Option<string>>)
  {
    forall i, j :: 0 <= i < j < |ranked| && ranked[i].Some? ==> ranked[i] != ranked[j]
  }

  /** The relevant documents the ranking retrieves. */
  function Found(relevant: set<string>, ranked: seq<Option<string>>): (f: set<string>)
    ensures f <= relevant
    ensures forall d :: d in f ==> exists k :: 0 <= k < |ranked| && ranked[k] == Some(d)
  {
    if ranked == [] then {}
    else
      var last := ranked[|ranked| - 1];
      var before := Found(relevant, ranked[..|ranked| - 1]);
      assert forall d :: d in before ==> exists k :: 0 <= k < |ranked| && ranked[k] == Some(d) by {
        forall d | d in before
          ensures exists k :: 0 <= k < |ranked| && ranked[k] == Some(d)
        {
          var k :| 0 <= k < |ranked| - 1 && ranked[..|ranked| - 1][k] == Some(d);
          assert ranked[k] == Some(d);
        }
      }
      if IsRelevant(relevant, last) then before + {last.value} else before
  }

  /** In a ranking without repeated ids, each relevant hit retrieves a new relevant document. */
  lemma {:induction false} HitsAreFound(relevant: set<string>, ranked: seq<Option<string>>)
    requires Distinct(ranked)
    ensures Hits(relevant, ranked) == |Found(relevant, ranked)|
  {
    if ranked != [] {
      var front := ranked[..|ranked| - 1];
      var last := ranked[|ranked| - 1];
      assert Distinct(front);
      HitsAreFound(relevant, front);
      if IsRelevant(relevant, last) {
        assert last.value !in Found(relevant, front) by {
          forall k | 0 <= k < |front|
            ensures front[k] != Some(last.value)
          {
            assert front[k] == ranked[k];
          }
        }
      }
    }
  }

  /** A subset is no larger than the set holding it. */
  lemma {:induction false} SubsetNoLarger(a: set<string>, b: set<string>)
    requires a <= b
    ensures |a| <= |b|
    decreases |a|
  {
    if a != {} {
      var x :| x in a;
      SubsetNoLarger(a - {x}, b - {x});
      assert |a - {x}| == |a| - 1 && |b - {x}| == |b| - 1;
    }
  }

  lemma QuotientAtMostOne(x: real, n: real)
    requires 0.0 < n && x <= n
    ensures x / n <= 1.0
  {
    assert x / n == x * (1.0 / n);
    assert n * (1.0 / n) == 1.0;
  }

  /** Average Precision is at most one when no id is ranked twice. */
  lemma AveragePrecisionAtMostOne(judged: Option<set<string>>, ranked: seq<Option<string>>)
    requires Distinct(ranked)
    ensures AveragePrecision(judged, ranked) <= 1.0
  {
    if judged.Some? && judged.value != {} {
      var relevant := judged.value;
      PrecisionSumBounds(relevant, ranked);
      HitsAreFound(relevant, ranked);
      SubsetNoLarger(Found(relevant, ranked), relevant);
      QuotientAtMostOne(PrecisionSum(relevant, ranked), |relevant| as real);
    }
  }

  /** When every hit is relevant, each rank contributes a precision of one. */
  lemma {:induction false} PrecisionSumAllRelevant(relevant: set<string>, ranked: seq<Option<string>>)
    requires forall k :: 0 <= k < |ranked| ==> IsRelevant(relevant, ranked[k])
    ensures Hits(relevant, ranked) == |ranked|
    ensures PrecisionSum(relevant, ranked) == |ranked| as real
  {
    if ranked != [] {
      PrecisionSumAllRelevant(relevant, ranked[..|ranked| - 1]);
    }
  }

  /** A ranking made of exactly the relevant documents scores one. */
  lemma AveragePrecisionPerfect(relevant: set<string>, ranked: seq<Option<string>>)
    requires relevant != {} && |ranked| == |relevant|
    requires forall k :: 0 <= k < |ranked| ==> IsRelevant(relevant, ranked[k])
    ensures AveragePrecision(Some(relevant), ranked) == 1.0
  {
    PrecisionSumAllRelevant(relevant, ranked);
  }

  /**
    A worked case: three relevant documents retrieved at ranks 1, 3 and 5
    give (1 + 2/3 + 3/5) / 3.
  */
  lemma AveragePrecisionExample()
    ensures AveragePrecision(Some({"d1", "d2", "d3"}),
                             [Some("d1"), Some("x"), Some("d2"), None, Some("d3")])
            == (1.0 + 2.0 / 3.0 + 3.0 / 5.0) / 3.0
  {
    var relevant := {"d1", "d2", "d3"};
    var ranked := [Some("d1"), Some("x"), Some("d2"), None, Some("d3")];
    assert |relevant| == 3;
    var r1, r2, r3, r4 := [Some("d1")], [Some("d1"), Some("x")], [Some("d1"), Some("x"), Some("d2")],
                          [Some("d1"), Some("x"), Some("d2"), None];
    assert r2[..1] == r1 && r3[..2] == r2 && r4[..3] == r3 && ranked[..4] == r4;
    assert Hits(relevant, r1) == 1 && PrecisionSum(relevant, r1) == 1.0;
    assert Hits(relevant, r2) == 1 && PrecisionSum(relevant, r2) == 1.0;
    assert Hits(relevant, r3) == 2 && PrecisionSum(relevant, r3) == 1.0 + 2.0 / 3.0;
    assert Hits(relevant, r4) == 2 && PrecisionSum(relevant, r4) == 1.0 + 2.0 / 3.0;
    assert Hits(relevant, ranked) == 3;
  }

  // ---------------------------------------------------------------------------
  // Mean Average Precision
  // ---------------------------------------------------------------------------

  /** The sum of `ap` over the queries `ids`, taken in the order given. */
  function SumInOrder(ap: string -> real, ids: seq<string>): real
  {
    if ids == [] then 0.0 else SumInOrder(ap, ids[..|ids| - 1]) + ap(ids[|ids| - 1])
  }

  /** The sum of `ap` over the set of queries `ids`, in whichever order `:|` picks. */
  ghost function SumOver(ap: string -> real, ids: set<string>): real
  {
    if ids == {} then 0.0
    else
      var q :| q in ids;
      ap(q) + SumOver(ap, ids - {q})
  }

  /** The set sum may start from any of its queries. */
  lemma {:induction false} SumOverPick(ap: string -> real, ids: set<string>, q: string)
    requires q in ids
    ensures SumOver(ap, ids) == ap(q) + SumOver(ap, ids - {q})
    decreases |ids|
  {
    var p :| p in ids && SumOver(ap, ids) == ap(p) + SumOver(ap, ids - {p});
    if p != q {
      SumOverPick(ap, ids - {p}, q);
      SumOverPick(ap, ids - {q}, p);
      assert ids - {p} - {q} == ids - {q} - {p};
    }
  }

  /**
    The order in which the queries are visited does not change the sum: any
    enumeration of the query set without repeats gives the set sum.
  */
  lemma {:induction false} SumInAnyOrder(ap: string -> real, ids: seq<string>, s: set<string>)
    requires s == set k | 0 <= k < |ids| :: ids[k]
    requires forall i, j :: 0 <= i < j < |ids| ==> ids[i] != ids[j]
    ensures SumInOrder(ap, ids) == SumOver(ap, s)
  {
    if ids != [] {
      var front := ids[..|ids| - 1];
      var last := ids[|ids| - 1];
      var rest := set k | 0 <= k < |front| :: front[k];
      assert rest == s - {last} by {
        forall d | d in s - {last}
          ensures d in rest
        {
          var k :| 0 <= k < |ids| && ids[k] == d;
          assert front[k] == d;
        }
      }
      SumInAnyOrder(ap, front, rest);
      SumOverPick(ap, s, last);
    }
  }

  /**
    Mean Average Precision over the queries `ids`, each scored by `ap`; with
    no query the division by zero leaves no number (`None`).
  */
  ghost function MeanAveragePrecision(ap: string -> real, ids: set<string>): Option<real>
  {
    if ids == {} then None else Some(SumOver(ap, ids) / |ids| as real)
  }

  /** When every query scores between zero and one, so does their mean. */
  lemma {:induction false} SumOverBounds(ap: string -> real, ids: set<string>)
    requires forall q :: q in ids ==> 0.0 <= ap(q) <= 1.0
    ensures 0.0 <= SumOver(ap, ids) <= |ids| as real
    decreases |ids|
  {
    if ids != {} {
      var q :| q in ids && SumOver(ap, ids) == ap(q) + SumOver(ap, ids - {q});
      SumOverBounds(ap, ids - {q});
    }
  }

  lemma MeanAveragePrecisionBounds(ap: string -> real, ids: set<string>)
    requires forall q :: q in ids ==> 0.0 <= ap(q) <= 1.0
    ensures MeanAveragePrecision(ap, ids).None? <==> ids == {}
    ensures MeanAveragePrecision(ap, ids).Some? ==> 0.0 <= MeanAveragePrecision(ap, ids).value <= 1.0
  {
    SumOverBounds(ap, ids);
  }
}
