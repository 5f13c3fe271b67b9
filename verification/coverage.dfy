/**
 The third challenge: reach the minimum adaptability value with base skills in
 as little time as possible. A greedy pass takes skills by decreasing
 value/time ratio until the value is reached; an exhaustive search scores every
 non-empty selection of base skills and keeps the fastest one that reaches it.
 */
module Coverage {
  import opened Wrappers
  import opened Seqs
  import opened Registry
  import opened Shipped
  import opened Sorting
  import opened Enumeration

  /** `ADAPTABILIDADE_MINIMA`: the value a selection must reach. */
  const MinValue: nat := 15

  /** Why the greedy comprehension stops: an id with no record (`KeyError`) or a zero time (`ZeroDivisionError`). */
  datatype Trouble = UnknownSkill(id: string) | ZeroTime(id: string)

  function ValueOf(c: Catalog, ids: seq<string>): nat {
    Total(c, ids, Value)
  }

  function TimeOf(c: Catalog, ids: seq<string>): nat {
    Total(c, ids, Time)
  }

  // ---------------------------------------------------------------------------
  // Sums do not depend on order
  // ---------------------------------------------------------------------------

  lemma TotalRemove(c: Catalog, ys: seq<string>, j: nat, a: Attr)
    requires j < |ys|
    ensures Total(c, ys, a) == Attribute(SkillOf(c, ys[j]), a) + Total(c, Remove(ys, j), a)
  {
    assert ys == ys[..j] + ([ys[j]] + ys[j + 1..]);
    TotalAppend(c, ys[..j], [ys[j]] + ys[j + 1..], a);
    TotalAppend(c, ys[..j], ys[j + 1..], a);
    assert ([ys[j]] + ys[j + 1..])[1..] == ys[j + 1..];
  }

  /** Sums of an attribute depend only on the multiset of ids. */
  lemma {:induction false} TotalMultiset(c: Catalog, xs: seq<string>, ys: seq<string>, a: Attr)
    requires multiset(xs) == multiset(ys)
    ensures Total(c, xs, a) == Total(c, ys, a)
    decreases |xs|
  {
    assert |xs| == |multiset(xs)| == |ys|;
    if |xs| > 0 {
      var x := xs[0];
      assert x in multiset(ys);
      var j :| 0 <= j < |ys| && ys[j] == x;
      RemoveMultiset(ys, j);
      assert xs == [x] + xs[1..];
      assert multiset(xs) == multiset(xs[1..]) + multiset{x};
      Cancel(multiset(xs[1..]), multiset(Remove(ys, j)), x);
      TotalMultiset(c, xs[1..], Remove(ys, j), a);
      TotalRemove(c, ys, j, a);
    }
  }

  /** The elements of `s` that `m` accounts for, in the order of `s`. */
  function Picked<T>(s: seq<T>, m: multiset<T>): seq<T> {
    if |s| == 0 then []
    else if s[0] in m then [s[0]] + Picked(s[1..], m - multiset{s[0]})
    else Picked(s[1..], m)
  }

  lemma {:induction false} PickedIsSubseq<T>(s: seq<T>, m: multiset<T>)
    ensures IsSubseq(Picked(s, m), s)
  {
    if |s| > 0 {
      var p := Picked(s, m);
      if s[0] in m {
        PickedIsSubseq(s[1..], m - multiset{s[0]});
        assert p[1..] == Picked(s[1..], m - multiset{s[0]});
      } else {
        PickedIsSubseq(s[1..], m);
        SubseqSkipHead(p, s);
      }
    }
  }

  lemma {:induction false} PickedMultiset<T>(s: seq<T>, m: multiset<T>)
    requires m <= multiset(s)
    ensures multiset(Picked(s, m)) == m
  {
    if |s| == 0 {
      assert m == multiset{};
    } else {
      var x := s[0];
      assert s == [x] + s[1..];
      if x in m {
        TakeHead(x, s[1..], m);
        PickedMultiset(s[1..], m - multiset{x});
      } else {
        SkipHead(x, s[1..], m);
        PickedMultiset(s[1..], m);
      }
    }
  }

  lemma TakeHead<T>(x: T, rest: seq<T>, m: multiset<T>)
    requires m <= multiset([x] + rest) && x in m
    ensures m - multiset{x} <= multiset(rest) && m == (m - multiset{x}) + multiset{x}
  {
    assert multiset([x] + rest) == multiset{x} + multiset(rest);
  }

  lemma SkipHead<T>(x: T, rest: seq<T>, m: multiset<T>)
    requires m <= multiset([x] + rest) && x !in m
    ensures m <= multiset(rest)
  {
    assert multiset([x] + rest) == multiset{x} + multiset(rest);
  }

  /** Any part of a sequence's elements can be taken as a subsequence of it. */
  lemma PickedSubseq<T>(s: seq<T>, m: multiset<T>)
    requires m <= multiset(s)
    ensures IsSubseq(Picked(s, m), s) && multiset(Picked(s, m)) == m
  {
    PickedIsSubseq(s, m);
    PickedMultiset(s, m);
  }

  // ---------------------------------------------------------------------------
  // greedy_selection
  // ---------------------------------------------------------------------------

  /**
   The first base id the rating comprehension cannot rate, in base order: an
   id without a record, or one whose time is zero.
   */
  function Screen(c: Catalog, base: seq<string>): Option<Trouble> {
    if |base| == 0 then None
    else if base[0] !in Keys(c) then Some(UnknownSkill(base[0]))
    else if SkillOf(c, base[0]).time == 0 then Some(ZeroTime(base[0]))
    else Screen(c, base[1..])
  }

  /** The ids the ratio can be computed for. */
  predicate Rateable(c: Catalog, x: string) {
    x in Keys(c) && SkillOf(c, x).time > 0
  }

  /** The screen passes iff every base id is rateable; otherwise it names the first that is not, and why. */
  lemma {:induction false} ScreenMeaning(c: Catalog, base: seq<string>)
    ensures Screen(c, base).None? <==> forall x :: x in base ==> Rateable(c, x)
    ensures Screen(c, base).Some? ==>
              var t := Screen(c, base).value;
              t.id in base && !Rateable(c, t.id) && (t.UnknownSkill? <==> t.id !in Keys(c)) &&
              forall j :: 0 <= j < IndexOf(base, t.id) ==> Rateable(c, base[j])
  {
    if |base| > 0 && Rateable(c, base[0]) {
      ScreenMeaning(c, base[1..]);
      assert base == [base[0]] + base[1..];
      var r := Screen(c, base[1..]);
      if r.Some? {
        assert r.value.id != base[0];
        assert IndexOf(base, r.value.id) == 1 + IndexOf(base[1..], r.value.id);
      }
    }
  }

  /** `Valor / Tempo`, exactly; a zero time never reaches the sort, since the screen stops first. */
  function Ratio(c: Catalog, x: string): real {
    var s := SkillOf(c, x);
    if s.time == 0 then 0.0 else s.value as real / s.time as real
  }

  /** The ascending key whose stable sort is the source's stable sort by decreasing ratio. */
  function DescendingRatio(c: Catalog): string -> real {
    x => -Ratio(c, x)
  }

  /** `skills_with_ratio` after `sort(key=ratio, reverse=True)`, by id. */
  function GreedyOrder(c: Catalog, base: seq<string>): seq<string> {
    MergeSort(base, DescendingRatio(c))
  }

  /** The greedy order rearranges the base skills by non-increasing ratio, equal ratios keeping base order. */
  lemma GreedyOrderMeaning(c: Catalog, base: seq<string>)
    ensures var order := GreedyOrder(c, base);
            multiset(order) == multiset(base) &&
            (forall i, j :: 0 <= i < j < |order| ==> Ratio(c, order[i]) >= Ratio(c, order[j])) &&
            forall k :: FilterKey(order, DescendingRatio(c), k) == FilterKey(base, DescendingRatio(c), k)
  {
    var order := GreedyOrder(c, base);
    SortedPairwise(order, DescendingRatio(c));
    forall i, j | 0 <= i < j < |order| ensures Ratio(c, order[i]) >= Ratio(c, order[j]) {
      assert DescendingRatio(c)(order[i]) <= DescendingRatio(c)(order[j]);
    }
  }

  /** The greedy result: the selected path and its running value and time. */
  datatype Selection = Selection(path: seq<string>, value: nat, time: nat)

  /** The loop over the greedy order from position `i`: a skill is appended while the value is below the minimum. */
  function TakeFrom(c: Catalog, order: seq<string>, i: nat, acc: Selection): Selection
    requires i <= |order|
    decreases |order| - i
  {
    if i == |order| then acc
    else if acc.value < MinValue then
      var s := SkillOf(c, order[i]);
      TakeFrom(c, order, i + 1, Selection(acc.path + [order[i]], acc.value + s.value, acc.time + s.time))
    else TakeFrom(c, order, i + 1, acc)
  }

  /** `greedy_selection(base_skills, habilidades)`. */
  function Greedy(c: Catalog, base: seq<string>): Result<Selection, Trouble> {
    match Screen(c, base)
    case Some(t) => Failure(t)
    case None => Success(TakeFrom(c, GreedyOrder(c, base), 0, Selection([], 0, 0)))
  }

  /** Where the greedy pass stops appending: the first prefix whose value reaches the minimum, or the end. */
  function CutFrom(c: Catalog, order: seq<string>, j: nat): (k: nat)
    requires j <= |order|
    ensures j <= k <= |order|
    decreases |order| - j
  {
    if j == |order| || ValueOf(c, order[..j]) >= MinValue then j else CutFrom(c, order, j + 1)
  }

  function Cut(c: Catalog, order: seq<string>): (k: nat)
    ensures k <= |order|
  {
    CutFrom(c, order, 0)
  }

  lemma {:induction false} CutFromMeaning(c: Catalog, order: seq<string>, j: nat)
    requires j <= |order| && forall i :: 0 <= i < j ==> ValueOf(c, order[..i]) < MinValue
    ensures var k := CutFrom(c, order, j);
            j <= k <= |order| &&
            (forall i :: 0 <= i < k ==> ValueOf(c, order[..i]) < MinValue) &&
            (k < |order| ==> ValueOf(c, order[..k]) >= MinValue)
    decreases |order| - j
  {
    if j < |order| && ValueOf(c, order[..j]) < MinValue {
      CutFromMeaning(c, order, j + 1);
    }
  }

  /** Every prefix shorter than the cut is below the minimum, and the cut prefix reaches it unless the order ran out. */
  lemma CutMeaning(c: Catalog, order: seq<string>)
    ensures var k := Cut(c, order);
            k <= |order| &&
            (forall i :: 0 <= i < k ==> ValueOf(c, order[..i]) < MinValue) &&
            (k < |order| ==> ValueOf(c, order[..k]) >= MinValue)
  {
    CutFromMeaning(c, order, 0);
  }

  /** The selection made of the first `m` skills of the order. */
  function PrefixSelection(c: Catalog, order: seq<string>, m: nat): Selection
    requires m <= |order|
  {
    Selection(order[..m], ValueOf(c, order[..m]), TimeOf(c, order[..m]))
  }

  lemma PrefixStep(c: Catalog, order: seq<string>, i: nat)
    requires i < |order|
    ensures var s := SkillOf(c, order[i]);
            var p := PrefixSelection(c, order, i);
            PrefixSelection(c, order, i + 1) == Selection(p.path + [order[i]], p.value + s.value, p.time + s.time)
  {
    assert order[..i + 1] == order[..i] + [order[i]];
    TotalAppend(c, order[..i], [order[i]], Value);
    TotalAppend(c, order[..i], [order[i]], Time);
  }

  lemma {:induction false} TakeFromCut(c: Catalog, order: seq<string>, i: nat)
    requires i <= |order|
    ensures var k := Cut(c, order);
            TakeFrom(c, order, i, PrefixSelection(c, order, if i < k then i else k)) == PrefixSelection(c, order, k)
    decreases |order| - i
  {
    var k := Cut(c, order);
    CutMeaning(c, order);
    if i < |order| {
      if i < k {
        PrefixStep(c, order, i);
      }
      TakeFromCut(c, order, i + 1);
    }
  }

  /**
   The greedy path is the greedy order up to the cut, and the returned value
   and time are the sums over that path.
   */
  lemma GreedyIsPrefix(c: Catalog, base: seq<string>)
    ensures Greedy(c, base).Success? <==> Screen(c, base).None?
    ensures Greedy(c, base).Success? ==>
              var order := GreedyOrder(c, base);
              var g := Greedy(c, base).value;
              g.path == order[..Cut(c, order)] && g.value == ValueOf(c, g.path) && g.time == TimeOf(c, g.path)
  {
    var order := GreedyOrder(c, base);
    TakeFromCut(c, order, 0);
    assert order[..0] == [];
  }

  /**
   When all base skills together reach the minimum, the greedy value reaches
   it too, and without its last pick the path would fall short.
   */
  lemma GreedyReaches(c: Catalog, base: seq<string>)
    requires Greedy(c, base).Success? && ValueOf(c, base) >= MinValue
    ensures var g := Greedy(c, base).value;
            g.value >= MinValue && |g.path| > 0 &&
            g.value - SkillOf(c, g.path[|g.path| - 1]).value < MinValue
  {
    var order := GreedyOrder(c, base);
    GreedyIsPrefix(c, base);
    GreedyOrderMeaning(c, base);
    CutMeaning(c, order);
    TotalMultiset(c, order, base, Value);
    var k := Cut(c, order);
    assert order[..|order|] == order;
    assert k > 0 by {
      assert order[..0] == [];
    }
    PrefixStep(c, order, k - 1);
  }

  // ---------------------------------------------------------------------------
  // exhaustive_search
  // ---------------------------------------------------------------------------

  /** The exhaustive result: path, value and time, the time `None` standing for `float('inf')`. */
  datatype Choice = Choice(path: seq<string>, value: nat, time: Option<nat>)

  /** The selection sizes `i` to `|s|`, each in `combinations` order, sizes ascending. */
  function CandidatesFrom(s: seq<string>, i: nat): seq<seq<string>>
    decreases |s| + 1 - i
  {
    if i > |s| then [] else Combs(s, i) + CandidatesFrom(s, i + 1)
  }

  /** `combinations(base_skills, i)` for `i` in `range(1, len(base_skills) + 1)`, in order. */
  function Candidates(s: seq<string>): seq<seq<string>> {
    CandidatesFrom(s, 1)
  }

  lemma {:induction false} CandidatesFromExactly(s: seq<string>, i: nat, q: seq<string>)
    ensures q in CandidatesFrom(s, i) <==> i <= |q| && IsSubseq(q, s)
    decreases |s| + 1 - i
  {
    if i <= |s| {
      CombsExactly(s, i, q);
      CandidatesFromExactly(s, i + 1, q);
      assert q in CandidatesFrom(s, i) <==> q in Combs(s, i) || q in CandidatesFrom(s, i + 1);
    } else {
      assert CandidatesFrom(s, i) == [];
      if IsSubseq(q, s) {
        SubseqLength(q, s);
      }
    }
  }

  /** The candidates are exactly the non-empty subsequences of the base skills. */
  lemma CandidatesExactly(s: seq<string>, q: seq<string>)
    ensures q in Candidates(s) <==> |q| > 0 && IsSubseq(q, s)
  {
    CandidatesFromExactly(s, 1, q);
  }

  predicate Qualifies(c: Catalog, q: seq<string>) {
    ValueOf(c, q) >= MinValue
  }

  /** The update test: a qualifying subset is strictly faster, or as fast with strictly more value. */
  predicate Improves(c: Catalog, b: Choice, q: seq<string>) {
    Qualifies(c, q) &&
    (b.time.None? || TimeOf(c, q) < b.time.value || (TimeOf(c, q) == b.time.value && ValueOf(c, q) > b.value))
  }

  function Consider(c: Catalog, b: Choice, q: seq<string>): Choice {
    if Improves(c, b, q) then Choice(q, ValueOf(c, q), Some(TimeOf(c, q))) else b
  }

  /** The loop over the candidates, in order, starting from `([], 0, inf)`. */
  function Scan(c: Catalog, cands: seq<seq<string>>): Choice {
    if |cands| == 0 then Choice([], 0, None)
    else Consider(c, Scan(c, cands[..|cands| - 1]), cands[|cands| - 1])
  }

  /** Nothing qualifies: the scan keeps its start. */
  lemma {:induction false} ScanNone(c: Catalog, cands: seq<seq<string>>)
    ensures (forall i :: 0 <= i < |cands| ==> !Qualifies(c, cands[i])) ==> Scan(c, cands) == Choice([], 0, None)
  {
    if |cands| > 0 {
      var pre := cands[..|cands| - 1];
      assert forall i :: 0 <= i < |pre| ==> pre[i] == cands[i];
      ScanNone(c, pre);
    }
  }

  /** The scan is no slower than any qualifying candidate, and on equal time has at least its value. */
  lemma {:induction false} ScanLeast(c: Catalog, cands: seq<seq<string>>)
    ensures var b := Scan(c, cands);
            forall i :: 0 <= i < |cands| && Qualifies(c, cands[i]) ==>
              b.time.Some? && b.time.value <= TimeOf(c, cands[i]) &&
              (TimeOf(c, cands[i]) == b.time.value ==> ValueOf(c, cands[i]) <= b.value)
  {
    if |cands| > 0 {
      var n := |cands| - 1;
      var pre := cands[..n];
      ScanLeast(c, pre);
      assert forall i :: 0 <= i < n ==> pre[i] == cands[i];
    }
  }

  /**
   A found result is a qualifying candidate with its own value and time, the
   first in the enumeration with that time and value.
   */
  lemma {:induction false} ScanFound(c: Catalog, cands: seq<seq<string>>)
    ensures var b := Scan(c, cands);
            b.time.None? ==> b == Choice([], 0, None)
    ensures var b := Scan(c, cands);
            b.time.Some? ==>
              exists j :: 0 <= j < |cands| && cands[j] == b.path && Qualifies(c, b.path) &&
                b.value == ValueOf(c, b.path) && b.time.value == TimeOf(c, b.path) &&
                forall i :: 0 <= i < j ==>
                  !(Qualifies(c, cands[i]) && TimeOf(c, cands[i]) == b.time.value && ValueOf(c, cands[i]) == b.value)
  {
    if |cands| > 0 {
      var n := |cands| - 1;
      var pre := cands[..n];
      ScanFound(c, pre);
      ScanLeast(c, pre);
      assert forall i :: 0 <= i < n ==> pre[i] == cands[i];
      var b0 := Scan(c, pre);
      if !Improves(c, b0, cands[n]) && b0.time.Some? {
        var j :| 0 <= j < n && pre[j] == b0.path && Qualifies(c, b0.path) &&
          b0.value == ValueOf(c, b0.path) && b0.time.value == TimeOf(c, b0.path) &&
          forall i :: 0 <= i < j ==>
            !(Qualifies(c, pre[i]) && TimeOf(c, pre[i]) == b0.time.value && ValueOf(c, pre[i]) == b0.value);
        assert cands[j] == b0.path;
      }
    }
  }

  /** The first base id without a record: the first size-one subset raises `KeyError` on it. */
  function FirstUnknown(c: Catalog, base: seq<string>): Option<string> {
    if |base| == 0 then None
    else if base[0] !in Keys(c) then Some(base[0])
    else FirstUnknown(c, base[1..])
  }

  lemma {:induction false} FirstUnknownMeaning(c: Catalog, base: seq<string>)
    ensures FirstUnknown(c, base).None? <==> forall x :: x in base ==> x in Keys(c)
    ensures FirstUnknown(c, base).Some? ==> FirstUnknown(c, base).value in base && FirstUnknown(c, base).value !in Keys(c)
  {
    if |base| > 0 {
      FirstUnknownMeaning(c, base[1..]);
      assert base == [base[0]] + base[1..];
    }
  }

  /** `exhaustive_search(base_skills, habilidades)`. */
  function Exhaustive(c: Catalog, base: seq<string>): Result<Choice, string> {
    match FirstUnknown(c, base)
    case Some(x) => Failure(x)
    case None => Success(Scan(c, Candidates(base)))
  }

  /**
   The exhaustive result is optimal over every non-empty selection of base
   skills that reaches the minimum; with none, it is `([], 0, inf)`.
   */
  lemma ExhaustiveOptimal(c: Catalog, base: seq<string>, q: seq<string>)
    requires Exhaustive(c, base).Success?
    ensures var b := Exhaustive(c, base).value;
            (b.time.None? <==> b == Choice([], 0, None)) &&
            (b.time.Some? ==>
               |b.path| > 0 && IsSubseq(b.path, base) && Qualifies(c, b.path) &&
               b.value == ValueOf(c, b.path) && b.time.value == TimeOf(c, b.path)) &&
            (|q| > 0 && IsSubseq(q, base) && Qualifies(c, q) ==>
               b.time.Some? && b.time.value <= TimeOf(c, q) &&
               (TimeOf(c, q) == b.time.value ==> ValueOf(c, q) <= b.value))
  {
    var cands := Candidates(base);
    var b := Scan(c, cands);
    ScanFound(c, cands);
    ScanLeast(c, cands);
    if b.time.Some? {
      CandidatesExactly(base, b.path);
    }
    CandidatesExactly(base, q);
    if q in cands {
      var i :| 0 <= i < |cands| && cands[i] == q;
    }
  }

  /** When no non-empty selection reaches the minimum, the search reports `([], 0, inf)`. */
  lemma ExhaustiveNone(c: Catalog, base: seq<string>)
    requires Exhaustive(c, base).Success?
    requires forall q :: |q| > 0 && IsSubseq(q, base) ==> !Qualifies(c, q)
    ensures Exhaustive(c, base).value == Choice([], 0, None)
  {
    var cands := Candidates(base);
    forall i | 0 <= i < |cands| ensures !Qualifies(c, cands[i]) {
      CandidatesExactly(base, cands[i]);
    }
    ScanNone(c, cands);
  }

  // ---------------------------------------------------------------------------
  // solve_challenge_3
  // ---------------------------------------------------------------------------

  /** The comparison report: both solutions, whether greedy is optimal, and the counterexample if not. */
  datatype Comparison = Comparison(greedy: Selection, optimal: Choice, greedyIsOptimal: bool, counterexample: Option<(Selection, Choice)>)

  /** `solve_challenge_3` on catalog `c` and base skills `base`: greedy first, then the exhaustive search. */
  function SolveCoverage(c: Catalog, base: seq<string>): Result<Comparison, Trouble> {
    match Greedy(c, base)
    case Failure(t) => Failure(t)
    case Success(g) =>
      match Exhaustive(c, base)
      case Failure(x) => Failure(UnknownSkill(x))
      case Success(o) =>
        var same := o.time == Some(g.time);
        Success(Comparison(g, o, same, if same then None else Some((g, o))))
  }

  /** The greedy path rearranges part of the base skills. */
  lemma GreedyPart(c: Catalog, base: seq<string>)
    requires Greedy(c, base).Success?
    ensures multiset(Greedy(c, base).value.path) <= multiset(base)
  {
    var order := GreedyOrder(c, base);
    GreedyIsPrefix(c, base);
    GreedyOrderMeaning(c, base);
    var k := Cut(c, order);
    CutMeaning(c, order);
    assert order == order[..k] + order[k..];
    assert multiset(order) == multiset(order[..k]) + multiset(order[k..]);
  }

  /**
   The comparison fails exactly when the screen does; a greedy path that
   reaches the minimum is never faster than the exhaustive one; greedy is
   reported optimal iff the two times agree, and the counterexample appears
   iff it is not.
   */
  lemma GreedyNeverFaster(c: Catalog, base: seq<string>)
    ensures SolveCoverage(c, base).Success? <==> Screen(c, base).None?
    ensures SolveCoverage(c, base).Success? ==>
              var r := SolveCoverage(c, base).value;
              (r.greedyIsOptimal <==> r.optimal.time == Some(r.greedy.time)) &&
              (r.counterexample.Some? <==> !r.greedyIsOptimal) &&
              (r.greedy.value >= MinValue ==> r.optimal.time.Some? && r.optimal.time.value <= r.greedy.time)
  {
    GreedyIsPrefix(c, base);
    ScreenMeaning(c, base);
    FirstUnknownMeaning(c, base);
    if Screen(c, base).None? {
      assert Exhaustive(c, base).Success?;
      var g := Greedy(c, base).value;
      if g.value >= MinValue {
        GreedyPart(c, base);
        var q := Picked(base, multiset(g.path));
        PickedSubseq(base, multiset(g.path));
        TotalMultiset(c, q, g.path, Value);
        TotalMultiset(c, q, g.path, Time);
        assert |q| == |multiset(q)| == |g.path|;
        assert ValueOf(c, []) == 0;
        ExhaustiveOptimal(c, base, q);
      }
    }
  }

  lemma SingleTotals(c: Catalog, b: string)
    ensures ValueOf(c, [b]) == SkillOf(c, b).value && TimeOf(c, [b]) == SkillOf(c, b).time
  {
    assert [b][1..] == [];
    assert Total(c, [b], Value) == Attribute(SkillOf(c, b), Value) + Total(c, [], Value);
    assert Total(c, [b], Time) == Attribute(SkillOf(c, b), Time) + Total(c, [], Time);
  }

  /** With positive attributes, the base skills of the catalog pass the screen, so the comparison runs. */
  lemma BaseSkillsCompare(c: Catalog)
    requires PositiveAttributes(c)
    ensures SolveCoverage(c, BaseSkills(c)).Success?
  {
    var base := BaseSkills(c);
    forall x | x in base ensures Rateable(c, x) {
      assert IsBase(c, x);
      var e :| e in c && e.id == x && |e.skill.prereqs| == 0;
      assert x in Keys(c);
      assert Entry(x, SkillOf(c, x)) in c;
    }
    ScreenMeaning(c, base);
    GreedyNeverFaster(c, base);
  }

  /** On the shipped catalog the comparison of the five base skills runs. */
  lemma ShippedCoverageRuns()
    ensures SolveCoverage(Master, BaseSkills(Master)).Success?
  {
    MasterWellFormed();
    BaseSkillsCompare(Master);
  }

  /** Skills `a` (time 10, value 14) and `b` (time 12, value 15). */
  predicate Contrasting(c: Catalog, a: string, b: string) {
    a != b && a in Keys(c) && b in Keys(c) &&
    SkillOf(c, a) == Skill(10, 14, 1, []) && SkillOf(c, b) == Skill(12, 15, 1, [])
  }

  lemma ContrastingGreedy(c: Catalog, a: string, b: string)
    requires Contrasting(c, a, b)
    ensures Greedy(c, [a, b]) == Success(Selection([a, b], 29, 22))
  {
    var base := [a, b];
    assert base[1..] == [b] && [b][1..] == [];
    assert Screen(c, [b]) == None;
    assert Screen(c, base) == None;
    var key := DescendingRatio(c);
    assert key(a) < key(b);
    assert GreedyOrder(c, base) == base by {
      assert base[..1] == [a] && base[1..] == [b];
      assert Merge([a], [b], key) == [a] + Merge([], [b], key);
    }
    assert TakeFrom(c, base, 2, Selection([a, b], 29, 22)) == Selection([a, b], 29, 22);
    assert [a] + [b] == base && [] + [a] == [a];
    assert TakeFrom(c, base, 1, Selection([a], 14, 10)) == Selection([a, b], 29, 22);
    assert TakeFrom(c, base, 0, Selection([], 0, 0)) == Selection([a, b], 29, 22);
  }

  /**
   Greedy need not be optimal: the better ratio of `a` makes greedy take both
   skills for a time of 22, while `b` alone reaches the minimum in 12.
   */
  lemma GreedyCanLose(c: Catalog, a: string, b: string)
    requires Contrasting(c, a, b)
    ensures var r := SolveCoverage(c, [a, b]);
            r.Success? && r.value.greedy == Selection([a, b], 29, 22) &&
            r.value.optimal.time.Some? && r.value.optimal.time.value <= 12 &&
            !r.value.greedyIsOptimal && r.value.counterexample.Some?
  {
    var base := [a, b];
    ContrastingGreedy(c, a, b);
    GreedyNeverFaster(c, base);
    assert IsSubseq([b], base) by {
      assert IsSubseq([b], base[1..]);
    }
    SingleTotals(c, b);
    ExhaustiveOptimal(c, base, [b]);
  }

  /** The two skills above as a catalog: the counterexample is reported. */
  lemma GreedyLosesOnPair()
    ensures var c := [Entry("A", Skill(10, 14, 1, [])), Entry("B", Skill(12, 15, 1, []))];
            var r := SolveCoverage(c, ["A", "B"]);
            r.Success? && !r.value.greedyIsOptimal && r.value.counterexample.Some?
  {
    var c := [Entry("A", Skill(10, 14, 1, [])), Entry("B", Skill(12, 15, 1, []))];
    assert c[0] in c && c[1] in c;
    assert SkillOf(c, "B") == c[1].skill;
    GreedyCanLose(c, "A", "B");
  }
}
