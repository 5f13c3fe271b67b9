/**
 The acquisition-order cost of the second challenge. A fold over an order of
 skill ids charges each known skill its own time plus the time of every
 prerequisite not yet acquired, even one that comes later in the same order.
 Every order of the critical skills is scored and ranked by that cost.
 */
module Ordering {
  import opened Wrappers
  import opened Seqs
  import opened Registry
  import opened Shipped
  import opened Graph
  import opened Sorting

  /** The pair returned by `calculate_acquisition_cost`: total cost and total wait. */
  datatype Cost = Cost(total: nat, wait: nat)

  // ---------------------------------------------------------------------------
  // calculate_acquisition_cost
  // ---------------------------------------------------------------------------

  /** The skills acquired after walking `prefix`: its known ids (unknown ids are skipped). */
  function Acquired(c: Catalog, prefix: seq<string>): set<string> {
    set x | x in prefix && x in Keys(c)
  }

  /** `missing_prereqs`: the prerequisites not yet acquired, in list order, repeats kept. */
  function Missing(ps: seq<string>, acquired: set<string>): (m: seq<string>)
    ensures IsSubseq(m, ps)
    ensures forall p :: p in m <==> p in ps && p !in acquired
  {
    if |ps| == 0 then []
    else
      var rest := Missing(ps[1..], acquired);
      if ps[0] !in acquired then
        assert ps == [ps[0]] + ps[1..];
        assert ([ps[0]] + rest)[1..] == rest;
        [ps[0]] + rest
      else
        SubseqSkipHead(rest, ps);
        assert ps == [ps[0]] + ps[1..];
        rest
  }

  /**
   `sum(habilidades[p]['Tempo'] for p in missing)`: the generator stops at the
   first id that is not a key (a `KeyError`); otherwise the times add up.
   */
  function WaitTime(c: Catalog, missing: seq<string>): Result<nat, string> {
    if |missing| == 0 then Success(0)
    else if missing[0] !in Keys(c) then Failure(missing[0])
    else
      match WaitTime(c, missing[1..])
      case Failure(p) => Failure(p)
      case Success(w) => Success(SkillOf(c, missing[0]).time + w)
  }

  /** The wait succeeds iff every missing id is a key; it fails on the first unknown one; it adds the times. */
  lemma {:induction false} WaitTimeMeaning(c: Catalog, missing: seq<string>)
    ensures WaitTime(c, missing).Success? <==> forall p :: p in missing ==> p in Keys(c)
    ensures WaitTime(c, missing).Success? ==> WaitTime(c, missing).value == Total(c, missing, Time)
    ensures WaitTime(c, missing).Failure? ==>
              var e := WaitTime(c, missing).error;
              e in missing && e !in Keys(c) && forall j :: 0 <= j < IndexOf(missing, e) ==> missing[j] in Keys(c)
  {
    if |missing| > 0 && missing[0] in Keys(c) {
      WaitTimeMeaning(c, missing[1..]);
      assert missing == [missing[0]] + missing[1..];
      var r := WaitTime(c, missing[1..]);
      if r.Failure? {
        var e := r.error;
        assert e != missing[0];
        assert IndexOf(missing, e) == 1 + IndexOf(missing[1..], e);
      }
    }
  }

  /**
   The loop of `calculate_acquisition_cost` from position `i` on, with the
   skills acquired so far and the running sums: an unknown id is skipped, a
   known one adds its time and its wait and is acquired, and an unknown
   missing prerequisite stops the fold with a `KeyError`.
   */
  function CostFrom(c: Catalog, order: seq<string>, i: nat, acquired: set<string>, acc: Cost): Result<Cost, string>
    requires i <= |order|
    decreases |order| - i
  {
    if i == |order| then Success(acc)
    else
      match Lookup(c, order[i])
      case None => CostFrom(c, order, i + 1, acquired, acc)
      case Some(s) =>
        match WaitTime(c, Missing(s.prereqs, acquired))
        case Failure(p) => Failure(p)
        case Success(w) => CostFrom(c, order, i + 1, acquired + {order[i]}, Cost(acc.total + s.time + w, acc.wait + w))
  }

  /** `calculate_acquisition_cost(order, habilidades)`: the fold from an empty acquired set and zero sums. */
  function OrderCost(c: Catalog, order: seq<string>): Result<Cost, string> {
    CostFrom(c, order, 0, {}, Cost(0, 0))
  }

  /** The loop of `calculate_acquisition_cost`, with its acquired set and two running sums. */
  method AcquisitionCost(c: Catalog, order: seq<string>) returns (r: Result<Cost, string>)
    ensures r == OrderCost(c, order)
  {
    var acquired: set<string> := {};
    var total: nat, wait: nat := 0, 0;
    for i := 0 to |order|
      invariant CostFrom(c, order, i, acquired, Cost(total, wait)) == OrderCost(c, order)
    {
      var data := Lookup(c, order[i]);
      if data.None? {
        continue;
      }
      var missing := Missing(data.value.prereqs, acquired);
      var w := WaitTime(c, missing);
      if w.Failure? {
        return Failure(w.error);
      }
      wait := wait + w.value;
      total := total + data.value.time + w.value;
      acquired := acquired + {order[i]};
    }
    r := Success(Cost(total, wait));
  }

  // ---------------------------------------------------------------------------
  // What the cost means
  // ---------------------------------------------------------------------------

  /** The catalog record of a known id is the one its lookup returns. */
  lemma KnownRecord(c: Catalog, id: string, s: Skill)
    requires Lookup(c, id) == Some(s)
    ensures id in Keys(c) && Entry(id, s) in c && SkillOf(c, id) == s && PrereqsOf(c, id) == s.prereqs
  {
  }

  /** The time of the skills from position `i` on splits into that of `order[i]` and the rest. */
  lemma TotalFrom(c: Catalog, order: seq<string>, i: nat)
    requires i < |order|
    ensures Total(c, order[i..], Time) == SkillOf(c, order[i]).time + Total(c, order[i + 1..], Time)
  {
    assert order[i..][1..] == order[i + 1..];
  }

  /** Acquiring the id at position `i` extends the acquired set exactly when it is a key. */
  lemma AcquiredNext(c: Catalog, order: seq<string>, i: nat)
    requires i < |order|
    ensures Acquired(c, order[..i + 1]) == Acquired(c, order[..i]) + (if order[i] in Keys(c) then {order[i]} else {})
  {
    assert order[..i + 1] == order[..i] + [order[i]];
  }

  /** The fold skips an unknown id. */
  lemma CostFromUnknown(c: Catalog, order: seq<string>, i: nat, acquired: set<string>, acc: Cost)
    requires i < |order| && Lookup(c, order[i]).None?
    ensures CostFrom(c, order, i, acquired, acc) == CostFrom(c, order, i + 1, acquired, acc)
    ensures order[i] !in Keys(c) && SkillOf(c, order[i]).time == 0
    ensures Acquired(c, order[..i + 1]) == Acquired(c, order[..i])
  {
    AcquiredNext(c, order, i);
  }

  /** The fold acquires a known id whose wait is defined. */
  lemma CostFromKnown(c: Catalog, order: seq<string>, i: nat, acquired: set<string>, acc: Cost, s: Skill, w: nat)
    requires i < |order| && Lookup(c, order[i]) == Some(s)
    requires WaitTime(c, Missing(s.prereqs, acquired)) == Success(w)
    ensures CostFrom(c, order, i, acquired, acc) ==
              CostFrom(c, order, i + 1, acquired + {order[i]}, Cost(acc.total + s.time + w, acc.wait + w))
    ensures order[i] in Keys(c) && SkillOf(c, order[i]) == s && PrereqsOf(c, order[i]) == s.prereqs
    ensures Acquired(c, order[..i + 1]) == Acquired(c, order[..i]) + {order[i]}
  {
    AcquiredNext(c, order, i);
  }

  /** The fold stops at a known id whose wait hits an unknown prerequisite. */
  lemma CostFromStops(c: Catalog, order: seq<string>, i: nat, acquired: set<string>, acc: Cost, s: Skill)
    requires i < |order| && Lookup(c, order[i]) == Some(s)
    requires WaitTime(c, Missing(s.prereqs, acquired)).Failure?
    ensures CostFrom(c, order, i, acquired, acc) == Failure(WaitTime(c, Missing(s.prereqs, acquired)).error)
    ensures order[i] in Keys(c) && Entry(order[i], s) in c
  {
  }

  /** The time of the skills of `order` from position `i` on, unknown ids adding nothing. */
  function TimeFrom(c: Catalog, order: seq<string>, i: nat): nat
    requires i <= |order|
    decreases |order| - i
  {
    if i == |order| then 0 else SkillOf(c, order[i]).time + TimeFrom(c, order, i + 1)
  }

  lemma {:induction false} TimeFromTotal(c: Catalog, order: seq<string>, i: nat)
    requires i <= |order|
    ensures TimeFrom(c, order, i) == Total(c, order[i..], Time)
    decreases |order| - i
  {
    if i < |order| {
      TimeFromTotal(c, order, i + 1);
      TotalFrom(c, order, i);
    } else {
      assert order[i..] == [];
    }
  }

  /**
   The fold only adds: the wait never drops, and the total grows by the added
   wait plus the time of every known skill it walks over.
   */
  lemma {:induction false} CostFromTotals(c: Catalog, order: seq<string>, i: nat, acquired: set<string>, acc: Cost)
    requires i <= |order|
    ensures CostFrom(c, order, i, acquired, acc).Success? ==>
              var r := CostFrom(c, order, i, acquired, acc).value;
              r.wait >= acc.wait && r.total + acc.wait == acc.total + r.wait + TimeFrom(c, order, i)
    decreases |order| - i
  {
    if i < |order| {
      var data := Lookup(c, order[i]);
      if data.None? {
        CostFromUnknown(c, order, i, acquired, acc);
        CostFromTotals(c, order, i + 1, acquired, acc);
      } else {
        var s := data.value;
        var m := WaitTime(c, Missing(s.prereqs, acquired));
        if m.Success? {
          var next := Cost(acc.total + s.time + m.value, acc.wait + m.value);
          CostFromKnown(c, order, i, acquired, acc, s, m.value);
          CostFromTotals(c, order, i + 1, acquired + {order[i]}, next);
        } else {
          CostFromStops(c, order, i, acquired, acc, s);
        }
      }
    }
  }

  /** The total cost is the total wait plus the time of the known skills of the order. */
  lemma CostIsWaitPlusTime(c: Catalog, order: seq<string>)
    ensures OrderCost(c, order).Success? ==>
              OrderCost(c, order).value.total == OrderCost(c, order).value.wait + Total(c, order, Time)
  {
    assert order[0..] == order;
    TimeFromTotal(c, order, 0);
    CostFromTotals(c, order, 0, {}, Cost(0, 0));
  }

  /** A failure names an id that some skill lists as a prerequisite but that is not a key. */
  lemma {:induction false} CostFromFailure(c: Catalog, order: seq<string>, i: nat, acquired: set<string>, acc: Cost)
    requires i <= |order|
    ensures CostFrom(c, order, i, acquired, acc).Failure? ==>
              Required(c, CostFrom(c, order, i, acquired, acc).error) && CostFrom(c, order, i, acquired, acc).error !in Keys(c)
    ensures NoOrphans(c) ==> CostFrom(c, order, i, acquired, acc).Success?
    decreases |order| - i
  {
    if i < |order| {
      var data := Lookup(c, order[i]);
      if data.None? {
        CostFromUnknown(c, order, i, acquired, acc);
        CostFromFailure(c, order, i + 1, acquired, acc);
      } else {
        var s := data.value;
        var m := Missing(s.prereqs, acquired);
        WaitTimeMeaning(c, m);
        if WaitTime(c, m).Success? {
          var w := WaitTime(c, m).value;
          CostFromKnown(c, order, i, acquired, acc, s, w);
          CostFromFailure(c, order, i + 1, acquired + {order[i]}, Cost(acc.total + s.time + w, acc.wait + w));
        } else {
          CostFromStops(c, order, i, acquired, acc, s);
          assert WaitTime(c, m).error in s.prereqs;
        }
      }
    }
  }

  /** Scoring fails only on an orphaned prerequisite, so it never fails on an orphan-free catalog. */
  lemma CostFailsOnlyOnOrphans(c: Catalog, order: seq<string>)
    ensures OrderCost(c, order).Failure? ==> Required(c, OrderCost(c, order).error) && OrderCost(c, order).error !in Keys(c)
    ensures NoOrphans(c) ==> OrderCost(c, order).Success?
  {
    CostFromFailure(c, order, 0, {}, Cost(0, 0));
  }

  /** Every prerequisite of the skill at position `i` is a known skill placed before it. */
  predicate ReadyAt(c: Catalog, order: seq<string>, i: nat)
    requires i < |order|
  {
    forall p :: p in PrereqsOf(c, order[i]) ==> p in Acquired(c, order[..i])
  }

  /** Every skill of the order comes after all of its prerequisites. */
  predicate PrereqsFirst(c: Catalog, order: seq<string>) {
    forall i :: 0 <= i < |order| ==> ReadyAt(c, order, i)
  }

  /** Nothing is missing when every prerequisite is acquired. */
  lemma {:induction false} NothingMissing(ps: seq<string>, acquired: set<string>)
    requires forall p :: p in ps ==> p in acquired
    ensures Missing(ps, acquired) == []
  {
    if |ps| > 0 {
      assert ps[0] in ps;
      assert forall p :: p in ps[1..] ==> p in ps;
      NothingMissing(ps[1..], acquired);
    }
  }

  /** Everything is missing when nothing listed is acquired. */
  lemma {:induction false} AllMissing(ps: seq<string>, acquired: set<string>)
    requires forall p :: p in ps ==> p !in acquired
    ensures Missing(ps, acquired) == ps
  {
    if |ps| > 0 {
      assert ps[0] in ps;
      assert forall p :: p in ps[1..] ==> p in ps;
      AllMissing(ps[1..], acquired);
    }
  }

  lemma {:induction false} CostFromReady(c: Catalog, order: seq<string>, i: nat, acc: Cost)
    requires i <= |order|
    requires forall j :: i <= j < |order| ==> ReadyAt(c, order, j)
    ensures CostFrom(c, order, i, Acquired(c, order[..i]), acc) == Success(Cost(acc.total + TimeFrom(c, order, i), acc.wait))
    decreases |order| - i
  {
    if i < |order| {
      var acquired := Acquired(c, order[..i]);
      assert ReadyAt(c, order, i);
      var data := Lookup(c, order[i]);
      if data.None? {
        CostFromUnknown(c, order, i, acquired, acc);
        CostFromReady(c, order, i + 1, acc);
      } else {
        var s := data.value;
        KnownRecord(c, order[i], s);
        NothingMissing(s.prereqs, acquired);
        CostFromKnown(c, order, i, acquired, acc, s, 0);
        CostFromReady(c, order, i + 1, Cost(acc.total + s.time, acc.wait));
      }
    }
  }

  /** An order that places every prerequisite before its dependents waits for nothing. */
  lemma PrereqsFirstNoWait(c: Catalog, order: seq<string>)
    requires PrereqsFirst(c, order)
    ensures OrderCost(c, order) == Success(Cost(Total(c, order, Time), 0))
  {
    assert order[..0] == [] && order[0..] == order;
    assert Acquired(c, []) == {};
    TimeFromTotal(c, order, 0);
    CostFromReady(c, order, 0, Cost(0, 0));
  }

  /** With positive times, a non-empty list of known ids has a positive total time. */
  lemma TotalZeroEmpty(c: Catalog, xs: seq<string>)
    requires PositiveAttributes(c) && (forall p :: p in xs ==> p in Keys(c)) && Total(c, xs, Time) == 0
    ensures xs == []
  {
  }

  lemma {:induction false} CostFromNoWait(c: Catalog, order: seq<string>, i: nat, acc: Cost)
    requires i <= |order| && PositiveAttributes(c)
    requires CostFrom(c, order, i, Acquired(c, order[..i]), acc).Success?
    requires CostFrom(c, order, i, Acquired(c, order[..i]), acc).value.wait == acc.wait
    ensures forall j :: i <= j < |order| ==> ReadyAt(c, order, j)
    decreases |order| - i
  {
    if i < |order| {
      var acquired := Acquired(c, order[..i]);
      var data := Lookup(c, order[i]);
      if data.None? {
        CostFromUnknown(c, order, i, acquired, acc);
        CostFromNoWait(c, order, i + 1, acc);
      } else {
        var s := data.value;
        var m := Missing(s.prereqs, acquired);
        WaitTimeMeaning(c, m);
        if WaitTime(c, m).Failure? {
          CostFromStops(c, order, i, acquired, acc, s);
        } else {
          var w := WaitTime(c, m).value;
          var next := Cost(acc.total + s.time + w, acc.wait + w);
          CostFromKnown(c, order, i, acquired, acc, s, w);
          CostFromTotals(c, order, i + 1, acquired + {order[i]}, next);
          TotalZeroEmpty(c, m);
          assert ReadyAt(c, order, i);
          CostFromNoWait(c, order, i + 1, next);
        }
      }
    }
  }

  /** With positive times, an order that waits for nothing places every prerequisite first. */
  lemma NoWaitPrereqsFirst(c: Catalog, order: seq<string>)
    requires PositiveAttributes(c) && OrderCost(c, order).Success? && OrderCost(c, order).value.wait == 0
    ensures PrereqsFirst(c, order)
  {
    assert order[..0] == [];
    assert Acquired(c, []) == {};
    CostFromNoWait(c, order, 0, Cost(0, 0));
  }

  /**
   For a skill `b` whose only prerequisite is the base skill `a`: `a` then `b`
   pays the two times; `b` then `a` waits for `a` while acquiring `b` and then
   pays for `a` again, since waiting does not acquire the prerequisite.
   */
  lemma LatePrerequisitePaidTwice(c: Catalog, a: string, b: string, sa: Skill, sb: Skill)
    requires Lookup(c, a) == Some(sa) && Lookup(c, b) == Some(sb)
    requires sa.prereqs == [] && sb.prereqs == [a]
    ensures OrderCost(c, [a, b]) == Success(Cost(sa.time + sb.time, 0))
    ensures OrderCost(c, [b, a]) == Success(Cost(sb.time + 2 * sa.time, sa.time))
  {
    KnownRecord(c, a, sa);
    var ab: seq<string> := [a, b];
    NothingMissing(sa.prereqs, {});
    CostFromKnown(c, ab, 0, {}, Cost(0, 0), sa, 0);
    NothingMissing(sb.prereqs, {a});
    assert {} + {ab[0]} == {a};
    CostFromKnown(c, ab, 1, {a}, Cost(sa.time, 0), sb, 0);
    var ba: seq<string> := [b, a];
    AllMissing(sb.prereqs, {});
    assert WaitTime(c, [a]) == Success(sa.time);
    CostFromKnown(c, ba, 0, {}, Cost(0, 0), sb, sa.time);
    NothingMissing(sa.prereqs, {b});
    assert {} + {ba[0]} == {b};
    CostFromKnown(c, ba, 1, {b}, Cost(sb.time + sa.time, sa.time), sa, 0);
  }

  /** A lone skill without prerequisites costs its own time and waits for nothing. */
  lemma LoneSkillCost(c: Catalog, a: string, sa: Skill)
    requires Lookup(c, a) == Some(sa) && sa.prereqs == []
    ensures OrderCost(c, [a]) == Success(Cost(sa.time, 0))
  {
    NothingMissing(sa.prereqs, {});
    CostFromKnown(c, [a], 0, {}, Cost(0, 0), sa, 0);
  }

  /** On the shipped catalog: S1 then S3 costs 180 with no wait; S3 then S1 costs 260 with a wait of 80. */
  lemma ShippedLatePrerequisite()
    ensures OrderCost(Master, ["S1", "S3"]) == Success(Cost(180, 0))
    ensures OrderCost(Master, ["S3", "S1"]) == Success(Cost(260, 80))
  {
    var s1, s3 := Skill(80, 3, 4, []), Skill(100, 7, 8, ["S1"]);
    assert Master[0] == Entry("S1", s1) && Master[2] == Entry("S3", s3);
    MasterRecord(0);
    MasterRecord(2);
    LatePrerequisitePaidTwice(Master, "S1", "S3", s1, s3);
  }
}
