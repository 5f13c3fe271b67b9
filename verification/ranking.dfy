/**
 The second challenge end to end: validate the catalog, enumerate every order
 of the critical skills, score each order by its acquisition cost, rank the
 orders by total cost with a stable sort, and report the three cheapest with
 their mean cost.
 */
module Ranking {
  import opened Wrappers
  import opened Registry
  import opened Shipped
  import opened Graph
  import opened Sorting
  import opened Enumeration
  import opened Ordering

  /** One row of the results: an order, its total cost and its total wait. */
  datatype Scored = Scored(order: seq<string>, total: nat, wait: nat)

  /** What the report holds on success. */
  datatype Report = Report(count: nat, top: seq<Scored>, average: real)

  /**
   Why no report comes back: validation failed (the source returns an error
   status), or a cost hit a prerequisite that is not a key (a `KeyError` the
   source does not catch).
   */
  datatype Trouble = Invalid(error: GraphError) | UnknownPrereq(id: string)

  // ---------------------------------------------------------------------------
  // Scoring every order
  // ---------------------------------------------------------------------------

  /** The row of one order, or the id its cost stopped on. */
  function ScoreOf(c: Catalog, order: seq<string>): Result<Scored, string> {
    match OrderCost(c, order)
    case Failure(e) => Failure(e)
    case Success(k) => Success(Scored(order, k.total, k.wait))
  }

  /** The list comprehension building the rows, in order; the first failing order stops it. */
  function Score(c: Catalog, orders: seq<seq<string>>): Result<seq<Scored>, string> {
    if |orders| == 0 then Success([])
    else
      match ScoreOf(c, orders[0])
      case Failure(e) => Failure(e)
      case Success(row) =>
        match Score(c, orders[1..])
        case Failure(e) => Failure(e)
        case Success(rest) => Success([row] + rest)
  }

  /**
   Scoring succeeds iff every order's cost does; then row `i` holds order `i`
   with its cost and wait. A failure carries the error of the first failing order.
   */
  lemma {:induction false} ScoreMeaning(c: Catalog, orders: seq<seq<string>>)
    ensures Score(c, orders).Success? <==> forall i :: 0 <= i < |orders| ==> OrderCost(c, orders[i]).Success?
    ensures Score(c, orders).Success? ==>
              var rows := Score(c, orders).value;
              |rows| == |orders| &&
              forall i :: 0 <= i < |orders| ==>
                OrderCost(c, orders[i]) == Success(Cost(rows[i].total, rows[i].wait)) && rows[i].order == orders[i]
    ensures Score(c, orders).Failure? ==>
              exists i :: 0 <= i < |orders| && OrderCost(c, orders[i]) == Failure(Score(c, orders).error) &&
                forall j :: 0 <= j < i ==> OrderCost(c, orders[j]).Success?
  {
    if |orders| > 0 {
      ScoreMeaning(c, orders[1..]);
      var head := ScoreOf(c, orders[0]);
      var tail := Score(c, orders[1..]);
      if head.Success? && tail.Success? {
        var rows := [head.value] + tail.value;
        assert forall i :: 1 <= i < |orders| ==> orders[i] == orders[1..][i - 1] && rows[i] == tail.value[i - 1];
      } else if head.Success? {
        var k :| 0 <= k < |orders| - 1 && OrderCost(c, orders[1..][k]) == Failure(tail.error) &&
          forall j :: 0 <= j < k ==> OrderCost(c, orders[1..][j]).Success?;
        assert forall j :: 1 <= j < k + 1 ==> orders[j] == orders[1..][j - 1];
        assert OrderCost(c, orders[k + 1]) == Failure(Score(c, orders).error);
      }
    }
  }

  /** On a catalog without orphaned prerequisites every order scores. */
  lemma ScoreNeverFails(c: Catalog, orders: seq<seq<string>>)
    requires NoOrphans(c)
    ensures Score(c, orders).Success?
  {
    forall i | 0 <= i < |orders| ensures OrderCost(c, orders[i]).Success? {
      CostFailsOnlyOnOrphans(c, orders[i]);
    }
    ScoreMeaning(c, orders);
  }

  // ---------------------------------------------------------------------------
  // Ranking
  // ---------------------------------------------------------------------------

  /** The sort key of `results.sort(key=lambda x: x['Custo Total'])`. */
  function CostKey(r: Scored): real {
    r.total as real
  }

  /** `results[:3]` after the stable sort by total cost. */
  function TopThree(rows: seq<Scored>): seq<Scored> {
    var ranked := MergeSort(rows, CostKey);
    ranked[..if |ranked| < 3 then |ranked| else 3]
  }

  /** In a sequence sorted by cost, the first row is cheapest, and a row cheaper than row `n - 1` lies before `n`. */
  lemma CheapestPrefix(ranked: seq<Scored>, n: nat, r: Scored)
    requires SortedBy(ranked, CostKey) && 0 < n <= |ranked| && r in ranked
    ensures ranked[0].total <= r.total
    ensures r.total < ranked[n - 1].total ==> r in ranked[..n]
  {
    var j :| 0 <= j < |ranked| && ranked[j] == r;
    HeadLeast(ranked, CostKey, j);
    if n <= j {
      SortedPairwise(ranked, CostKey);
      assert CostKey(ranked[n - 1]) <= CostKey(ranked[j]);
    } else {
      assert ranked[..n][j] == r;
    }
  }

  /** The reported rows are up to three of the rows, in order of cost. */
  lemma TopThreeShape(rows: seq<Scored>)
    ensures var top := TopThree(rows);
            |top| == (if |rows| < 3 then |rows| else 3) &&
            multiset(top) <= multiset(rows) &&
            forall i, j :: 0 <= i < j < |top| ==> top[i].total <= top[j].total
  {
    var ranked := MergeSort(rows, CostKey);
    var n := if |ranked| < 3 then |ranked| else 3;
    var top := ranked[..n];
    assert ranked == top + ranked[n..];
    assert multiset(ranked) == multiset(top) + multiset(ranked[n..]);
    SortedPairwise(ranked, CostKey);
    forall i, j | 0 <= i < j < |top| ensures top[i].total <= top[j].total {
      assert CostKey(ranked[i]) <= CostKey(ranked[j]);
    }
  }

  /** A row is no cheaper than the first reported one, and is reported if strictly cheaper than the last. */
  lemma TopHolds(rows: seq<Scored>, r: Scored)
    requires r in rows
    ensures var top := TopThree(rows);
            |top| > 0 && top[0].total <= r.total &&
            (r.total < top[|top| - 1].total ==> exists k :: 0 <= k < |top| && top[k] == r)
  {
    var ranked := MergeSort(rows, CostKey);
    var n := if |ranked| < 3 then |ranked| else 3;
    assert r in multiset(rows);
    CheapestPrefix(ranked, n, r);
  }

  /**
   No row is cheaper than the first one reported, and every row strictly
   cheaper than the last one reported is among them.
   */
  lemma TopThreeCheapest(rows: seq<Scored>)
    ensures var top := TopThree(rows);
            (forall r :: r in rows ==> |top| > 0 && top[0].total <= r.total) &&
            (forall r :: r in rows && r.total < top[|top| - 1].total ==> r in top)
  {
    forall r | r in rows
      ensures |TopThree(rows)| > 0 && TopThree(rows)[0].total <= r.total
      ensures r.total < TopThree(rows)[|TopThree(rows)| - 1].total ==> r in TopThree(rows)
    {
      TopHolds(rows, r);
    }
  }

  // ---------------------------------------------------------------------------
  // The average of the reported costs
  // ---------------------------------------------------------------------------

  function SumTotals(rows: seq<Scored>): nat {
    if |rows| == 0 then 0 else rows[0].total + SumTotals(rows[1..])
  }

  /** The source's average: the sum of the reported costs divided by 3, however many there are. */
  function AverageAsWritten(top: seq<Scored>): real {
    SumTotals(top) as real / 3.0
  }

  /** The mean of the reported costs: their sum over their number (0 for none). */
  function Mean(top: seq<Scored>): real {
    if |top| == 0 then 0.0 else SumTotals(top) as real / |top| as real
  }

  lemma {:induction false} SumTotalsBounds(rows: seq<Scored>, lo: nat, hi: nat)
    requires forall i :: 0 <= i < |rows| ==> lo <= rows[i].total <= hi
    ensures |rows| * lo <= SumTotals(rows) <= |rows| * hi
  {
    if |rows| > 0 {
      assert forall i :: 0 <= i < |rows| - 1 ==> rows[1..][i] == rows[i + 1];
      SumTotalsBounds(rows[1..], lo, hi);
      MulStep(|rows| - 1, lo);
      MulStep(|rows| - 1, hi);
    }
  }

  /** The mean lies between the least and the greatest reported cost. */
  lemma MeanBounds(top: seq<Scored>, lo: nat, hi: nat)
    requires |top| > 0 && forall i :: 0 <= i < |top| ==> lo <= top[i].total <= hi
    ensures lo as real <= Mean(top) <= hi as real
  {
    SumTotalsBounds(top, lo, hi);
    QuotientBounds(SumTotals(top), |top|, lo, hi);
  }

  /** Integer bounds `n * lo <= s <= n * hi` carry over to the real quotient `s / n`. */
  lemma QuotientBounds(s: nat, n: nat, lo: nat, hi: nat)
    requires n > 0 && n * lo <= s <= n * hi
    ensures lo as real <= s as real / n as real <= hi as real
  {
    RealMul(n, lo);
    RealMul(n, hi);
    DivBounds(s as real, n as real, lo as real, hi as real);
  }

  lemma RealMul(n: nat, x: nat)
    ensures (n * x) as real == n as real * x as real
  {
  }

  lemma DivBounds(s: real, n: real, lo: real, hi: real)
    requires n > 0.0 && n * lo <= s <= n * hi
    ensures lo <= s / n <= hi
  {
    assert s / n * n == s;
  }

  /** With three reported orders the source's average is the mean. */
  lemma ThreeAverageIsMean(top: seq<Scored>)
    ensures |top| == 3 ==> AverageAsWritten(top) == Mean(top)
  {
  }

  /** With fewer than three reported orders and a positive cost, the source's average falls below the mean. */
  lemma ShortAverageTooLow(top: seq<Scored>)
    ensures 0 < |top| < 3 && SumTotals(top) > 0 ==> AverageAsWritten(top) < Mean(top)
  {
    if 0 < |top| < 3 && SumTotals(top) > 0 {
      var s := SumTotals(top) as real;
      var n := |top| as real;
      assert s / n * n == s;
      assert s / 3.0 * 3.0 == s;
    }
  }

  // ---------------------------------------------------------------------------
  // solve_challenge_2
  // ---------------------------------------------------------------------------

  /**
   `solve_challenge_2` on catalog `c` and critical skills `critical`: validation
   first, then every permutation scored, ranked and cut to three, with the sum
   of the reported costs divided by 3 as the average.
   */
  function SolveOrdering(c: Catalog, critical: seq<string>): Result<Report, Trouble> {
    match Validate(c)
    case Fail(e) => Failure(Invalid(e))
    case Pass =>
      var orders := Perms(critical);
      match Score(c, orders)
      case Failure(id) => Failure(UnknownPrereq(id))
      case Success(rows) =>
        var top := TopThree(rows);
        Success(Report(|orders|, top, AverageAsWritten(top)))
  }

  /** The report as evidently intended: the same orders, with the mean of the reported costs as the average. */
  function SolveOrderingIntended(c: Catalog, critical: seq<string>): Result<Report, Trouble> {
    match SolveOrdering(c, critical)
    case Failure(e) => Failure(e)
    case Success(r) => Success(Report(r.count, r.top, Mean(r.top)))
  }

  /**
   The intended report lists what the source's does, and its average lies
   between the cheapest and the dearest reported cost.
   */
  lemma IntendedAverageBounds(c: Catalog, critical: seq<string>)
    requires Validate(c) == Pass
    ensures SolveOrderingIntended(c, critical).Success?
    ensures var r := SolveOrderingIntended(c, critical).value;
            r.count == SolveOrdering(c, critical).value.count && r.top == SolveOrdering(c, critical).value.top &&
            |r.top| > 0 && r.top[0].total as real <= r.average <= r.top[|r.top| - 1].total as real
  {
    SolveReport(c, critical);
    FactorialPositive(|critical|);
    var top := SolveOrdering(c, critical).value.top;
    forall i | 0 <= i < |top| ensures top[0].total <= top[i].total <= top[|top| - 1].total {
      assert 0 < i ==> top[0].total <= top[i].total;
      assert i < |top| - 1 ==> top[i].total <= top[|top| - 1].total;
    }
    MeanBounds(top, top[0].total, top[|top| - 1].total);
  }

  /** A failed validation is reported as is; a passed one always yields a report. */
  lemma SolveFailsOnlyOnValidation(c: Catalog, critical: seq<string>)
    ensures Validate(c).Fail? ==> SolveOrdering(c, critical) == Failure(Invalid(Validate(c).error))
    ensures Validate(c).Pass? ==> SolveOrdering(c, critical).Success?
  {
    if Validate(c).Pass? {
      ScoreNeverFails(c, Perms(critical));
    }
  }

  /**
   A report counts `n!` orders and lists up to three of them, cheapest first,
   each a rearrangement of the critical skills shown with its own cost and wait.
   */
  lemma SolveReport(c: Catalog, critical: seq<string>)
    requires Validate(c) == Pass
    ensures SolveOrdering(c, critical).Success?
    ensures var r := SolveOrdering(c, critical).value;
            r.count == Factorial(|critical|) &&
            |r.top| == (if r.count < 3 then r.count else 3) &&
            (forall i, j :: 0 <= i < j < |r.top| ==> r.top[i].total <= r.top[j].total) &&
            forall k :: 0 <= k < |r.top| ==>
              multiset(r.top[k].order) == multiset(critical) &&
              OrderCost(c, r.top[k].order) == Success(Cost(r.top[k].total, r.top[k].wait))
  {
    var orders := Perms(critical);
    SolveFailsOnlyOnValidation(c, critical);
    ScoreMeaning(c, orders);
    PermsCount(critical);
    var rows := Score(c, orders).value;
    var top := TopThree(rows);
    TopThreeShape(rows);
    forall k | 0 <= k < |top|
      ensures multiset(top[k].order) == multiset(critical)
      ensures OrderCost(c, top[k].order) == Success(Cost(top[k].total, top[k].wait))
    {
      assert top[k] in multiset(rows);
      var i :| 0 <= i < |rows| && rows[i] == top[k];
      PermsSound(critical, orders[i]);
    }
  }

  /**
   The first reported order is optimal among all rearrangements of the critical
   skills, and any rearrangement strictly cheaper than the last one reported is reported.
   */
  lemma SolveOptimal(c: Catalog, critical: seq<string>, p: seq<string>)
    requires Validate(c) == Pass && multiset(p) == multiset(critical)
    ensures OrderCost(c, p).Success? && SolveOrdering(c, critical).Success?
    ensures var top := SolveOrdering(c, critical).value.top;
            |top| > 0 && top[0].total <= OrderCost(c, p).value.total &&
            (OrderCost(c, p).value.total < top[|top| - 1].total ==> exists k :: 0 <= k < |top| && top[k].order == p)
  {
    var orders := Perms(critical);
    SolveFailsOnlyOnValidation(c, critical);
    ScoreMeaning(c, orders);
    PermsExactly(critical, p);
    var rows := Score(c, orders).value;
    var i :| 0 <= i < |orders| && orders[i] == p;
    TopHolds(rows, rows[i]);
  }

  // ---------------------------------------------------------------------------
  // The shipped data
  // ---------------------------------------------------------------------------

  /** Five critical skills on a valid catalog: 120 orders, three reported, and dividing by 3 gives the mean. */
  lemma FiveCritical(c: Catalog, critical: seq<string>)
    requires Validate(c) == Pass && |critical| == 5
    ensures SolveOrdering(c, critical).Success?
    ensures var r := SolveOrdering(c, critical).value;
            r.count == 120 && |r.top| == 3 && r.average == Mean(r.top)
  {
    SolveReport(c, critical);
    assert Factorial(5) == 120;
    ThreeAverageIsMean(SolveOrdering(c, critical).value.top);
  }

  /** On the shipped data all 120 orders of the five critical skills are scored, three reported, and their mean reported. */
  lemma ShippedReport()
    ensures SolveOrdering(Master, Critical).Success?
    ensures var r := SolveOrdering(Master, Critical).value;
            r.count == 120 && |r.top| == 3 && r.average == Mean(r.top)
  {
    MasterValid();
    FiveCritical(Master, Critical);
  }

  /** A sequence with the elements of `[x]` is `[x]`. */
  lemma OnlyArrangement<T>(p: seq<T>, x: T)
    requires multiset(p) == multiset{x}
    ensures p == [x]
  {
    assert |p| == |multiset(p)| == 1;
    assert p[0] in multiset(p);
  }

  /**
   A single critical skill without prerequisites: its one order is reported
   with its time as cost; the reported average is a third of that time, while the mean is the time itself.
   */
  lemma LoneCritical(c: Catalog, a: string, sa: Skill)
    requires Validate(c) == Pass && Lookup(c, a) == Some(sa) && sa.prereqs == []
    ensures SolveOrdering(c, [a]).Success?
    ensures var r := SolveOrdering(c, [a]).value;
            r.top == [Scored([a], sa.time, 0)] && r.average == sa.time as real / 3.0 &&
            Mean(r.top) == sa.time as real
  {
    LoneTop(c, a, sa);
    assert SumTotals([Scored([a], sa.time, 0)]) == sa.time;
  }

  /** The one arrangement of a lone critical skill is the only reported row. */
  lemma LoneTop(c: Catalog, a: string, sa: Skill)
    requires Validate(c) == Pass && Lookup(c, a) == Some(sa) && sa.prereqs == []
    ensures SolveOrdering(c, [a]).Success? && SolveOrdering(c, [a]).value.top == [Scored([a], sa.time, 0)]
  {
    SolveReport(c, [a]);
    var top := SolveOrdering(c, [a]).value.top;
    assert Factorial(1) == 1;
    OnlyArrangement(top[0].order, a);
    LoneSkillCost(c, a, sa);
  }

  /** On the shipped catalog with the single critical skill S1, the report says 80 / 3 while the mean is 80. */
  lemma ShippedLoneCritical()
    ensures SolveOrdering(Master, ["S1"]).Success?
    ensures var r := SolveOrdering(Master, ["S1"]).value;
            r.top == [Scored(["S1"], 80, 0)] && r.average == 80.0 / 3.0 && Mean(r.top) == 80.0
  {
    MasterValid();
    var s1 := Skill(80, 3, 4, []);
    assert Master[0] == Entry("S1", s1);
    MasterRecord(0);
    LoneCritical(Master, "S1", s1);
  }
}
