/**
 The fifth challenge: recommend up to three next skills by a look-ahead
 recursion that, from a set of acquired skills, picks the available skill
 maximising its market-weighted value plus the best value reachable with one
 step fewer.

 The acquired set travels through the recursion as a sorted tuple of ids (the
 cache key of `dp_recommendation`); the model keeps that representation, with
 Python's string order written out.
 */
module Recommend {
  import opened Wrappers
  import opened Seqs
  import opened Registry
  import Shipped

  /** How many skills the driver recommends (`MAX_SKILLS_TO_RECOMMEND`). */
  const Horizon: nat := 3

  /** The market weights the driver passes in; ids not listed weigh 1.0. */
  const MarketWeights: map<string, real> := map["S6" := 1.5, "S9" := 1.3, "S7" := 1.2, "S4" := 1.1]

  /** The profile used when the caller gives none. */
  const DefaultProfile: seq<string> := ["S1", "S2"]

  // ---------------------------------------------------------------------------
  // Python's string order and the sorted-tuple state
  // ---------------------------------------------------------------------------

  /** `a <= b` on Python strings: code points compared left to right, a proper prefix first. */
  predicate StrLe(a: string, b: string) {
    if |a| == 0 then true
    else if |b| == 0 then false
    else if a[0] != b[0] then a[0] < b[0]
    else StrLe(a[1..], b[1..])
  }

  lemma {:induction false} StrLeTotal(a: string, b: string)
    ensures StrLe(a, b) || StrLe(b, a)
  {
    if |a| > 0 && |b| > 0 && a[0] == b[0] {
      StrLeTotal(a[1..], b[1..]);
    }
  }

  lemma {:induction false} StrLeAntisymmetric(a: string, b: string)
    requires StrLe(a, b) && StrLe(b, a)
    ensures a == b
  {
    if |a| > 0 && |b| > 0 {
      StrLeAntisymmetric(a[1..], b[1..]);
      assert a == [a[0]] + a[1..] && b == [b[0]] + b[1..];
    }
  }

  lemma {:induction false} StrLeTransitive(a: string, b: string, d: string)
    requires StrLe(a, b) && StrLe(b, d)
    ensures StrLe(a, d)
  {
    if |a| > 0 && |b| > 0 && |d| > 0 && a[0] == b[0] && b[0] == d[0] {
      StrLeTransitive(a[1..], b[1..], d[1..]);
    }
  }

  /** Ids in non-decreasing string order. */
  predicate Sorted(t: seq<string>) {
    forall i :: 0 < i < |t| ==> StrLe(t[i - 1], t[i])
  }

  /** `sorted(list(t) + [x])` for a sorted `t`: `x` goes before the first id it does not exceed. */
  function Insert(x: string, t: seq<string>): seq<string> {
    if |t| == 0 then [x]
    else if StrLe(x, t[0]) then [x] + t
    else [t[0]] + Insert(x, t[1..])
  }

  /** `tuple(sorted(profile))`, by repeated insertion. */
  function SortIds(s: seq<string>): seq<string> {
    if |s| == 0 then [] else Insert(s[|s| - 1], SortIds(s[..|s| - 1]))
  }

  /** Inserting adds exactly `x`: the tuple grows by one. */
  lemma {:induction false} InsertMultiset(x: string, t: seq<string>)
    ensures multiset(Insert(x, t)) == multiset(t) + multiset{x}
    ensures |Insert(x, t)| == |t| + 1
  {
    if |t| > 0 && !StrLe(x, t[0]) {
      InsertMultiset(x, t[1..]);
      assert t == [t[0]] + t[1..];
    }
  }

  /** Inserting into a sorted tuple keeps it sorted. */
  lemma {:induction false} InsertSorted(x: string, t: seq<string>)
    requires Sorted(t)
    ensures Sorted(Insert(x, t))
  {
    if |t| > 0 && !StrLe(x, t[0]) {
      var rest := Insert(x, t[1..]);
      SortedTailOf(t);
      InsertSorted(x, t[1..]);
      InsertHead(x, t[1..]);
      StrLeTotal(x, t[0]);
      var m := [t[0]] + rest;
      forall i | 0 < i < |m| ensures StrLe(m[i - 1], m[i]) {
        if i == 1 {
          if rest[0] != x {
            assert rest[0] == t[1];
          }
        } else {
          assert m[i - 1] == rest[i - 2] && m[i] == rest[i - 1];
        }
      }
    } else if |t| > 0 {
      var m := [x] + t;
      forall i | 0 < i < |m| ensures StrLe(m[i - 1], m[i]) {
        if i > 1 {
          assert m[i - 1] == t[i - 2] && m[i] == t[i - 1];
        }
      }
    }
  }

  /** The head of an insertion is the inserted id or the old head. */
  lemma InsertHead(x: string, t: seq<string>)
    ensures |Insert(x, t)| > 0 && (Insert(x, t)[0] == x || (|t| > 0 && Insert(x, t)[0] == t[0]))
  {
  }

  /** Inserting keeps the tuple sorted, adds exactly `x`, and makes it one longer. */
  lemma InsertFacts(x: string, t: seq<string>)
    requires Sorted(t)
    ensures Sorted(Insert(x, t))
    ensures multiset(Insert(x, t)) == multiset(t) + multiset{x}
    ensures |Insert(x, t)| == |t| + 1
  {
    InsertSorted(x, t);
    InsertMultiset(x, t);
  }

  /** The elements of a tuple after inserting `x` are the old ones and `x`. */
  lemma InsertElems(x: string, t: seq<string>)
    requires Sorted(t)
    ensures Elems(Insert(x, t)) == Elems(t) + {x}
  {
    InsertFacts(x, t);
    forall y ensures y in Insert(x, t) <==> y in t || y == x {
      assert y in Insert(x, t) <==> y in multiset(Insert(x, t));
      assert y in t <==> y in multiset(t);
    }
  }

  /** A sorted tuple without duplicates stays without duplicates when a new id is inserted. */
  lemma {:induction false} InsertDistinct(x: string, t: seq<string>)
    requires Sorted(t) && Distinct(t) && x !in t
    ensures Distinct(Insert(x, t))
  {
    if |t| == 0 {
    } else if StrLe(x, t[0]) {
      DistinctCons(x, t);
    } else {
      SortedTailOf(t);
      DistinctTail(t);
      assert x !in t[1..] by {
        forall k | 0 <= k < |t| - 1 ensures t[1..][k] != x {
          assert t[1..][k] == t[k + 1];
        }
      }
      InsertDistinct(x, t[1..]);
      InsertElems(x, t[1..]);
      assert t[0] !in t[1..] by {
        forall k | 0 <= k < |t| - 1 ensures t[1..][k] != t[0] {
          assert t[1..][k] == t[k + 1];
        }
      }
      assert t[0] !in Elems(Insert(x, t[1..]));
      DistinctCons(t[0], Insert(x, t[1..]));
    }
  }

  lemma DistinctCons(h: string, r: seq<string>)
    requires Distinct(r) && h !in r
    ensures Distinct([h] + r)
  {
    var m := [h] + r;
    forall i, j | 0 <= i < j < |m| ensures m[i] != m[j] {
      assert m[j] == r[j - 1];
      if i > 0 { assert m[i] == r[i - 1]; }
    }
  }

  lemma DistinctTail(t: seq<string>)
    requires Distinct(t) && |t| > 0
    ensures Distinct(t[1..])
  {
    forall i, j | 0 <= i < j < |t| - 1 ensures t[1..][i] != t[1..][j] {
      assert t[1..][i] == t[i + 1] && t[1..][j] == t[j + 1];
    }
  }

  /** Sorting the profile gives a sorted rearrangement of it. */
  lemma {:induction false} SortIdsFacts(s: seq<string>)
    ensures Sorted(SortIds(s))
    ensures multiset(SortIds(s)) == multiset(s)
  {
    if |s| > 0 {
      var init := s[..|s| - 1];
      SortIdsFacts(init);
      InsertFacts(s[|s| - 1], SortIds(init));
      assert s == init + [s[|s| - 1]];
    }
  }

  /** The sorted arrangement of a multiset of ids is unique, so insertion gives what `sorted` gives. */
  lemma {:induction false} SortedUnique(a: seq<string>, b: seq<string>)
    requires Sorted(a) && Sorted(b) && multiset(a) == multiset(b)
    ensures a == b
    decreases |a|
  {
    assert |a| == |multiset(a)| == |b|;
    if |a| > 0 {
      SortedHeads(a, b);
      TailMultiset(a, b);
      SortedTailOf(a);
      SortedTailOf(b);
      SortedUnique(a[1..], b[1..]);
      assert a == [a[0]] + a[1..] && b == [b[0]] + b[1..];
    }
  }

  /** Two sorted arrangements of the same ids start with the same id. */
  lemma SortedHeads(a: seq<string>, b: seq<string>)
    requires Sorted(a) && Sorted(b) && multiset(a) == multiset(b) && |a| > 0 && |b| > 0
    ensures a[0] == b[0]
  {
    assert b[0] in multiset(b) && a[0] in multiset(a);
    SortedLeast(a, b[0]);
    SortedLeast(b, a[0]);
    StrLeAntisymmetric(a[0], b[0]);
  }

  lemma TailMultiset(a: seq<string>, b: seq<string>)
    requires multiset(a) == multiset(b) && |a| > 0 && |b| > 0 && a[0] == b[0]
    ensures multiset(a[1..]) == multiset(b[1..])
  {
    assert a == [a[0]] + a[1..] && b == [b[0]] + b[1..];
    assert multiset(a[1..]) == multiset(a) - multiset{a[0]};
    assert multiset(b[1..]) == multiset(b) - multiset{b[0]};
  }

  lemma SortedTailOf(t: seq<string>)
    requires Sorted(t) && |t| > 0
    ensures Sorted(t[1..])
  {
    forall i | 0 < i < |t| - 1 ensures StrLe(t[1..][i - 1], t[1..][i]) {
      assert t[1..][i - 1] == t[i] && t[1..][i] == t[i + 1];
    }
  }

  /** The head of a sorted tuple is at most every element of it. */
  lemma {:induction false} SortedLeast(t: seq<string>, y: string)
    requires Sorted(t) && y in t
    ensures StrLe(t[0], y)
  {
    if t[0] != y {
      assert y in t[1..] by {
        var k :| 0 <= k < |t| && t[k] == y;
        assert t[1..][k - 1] == y;
      }
      SortedTailOf(t);
      SortedLeast(t[1..], y);
      StrLeTransitive(t[0], t[1], y);
    } else {
      StrLeTotal(y, y);
    }
  }

  /** `Insert` computes `sorted(list(t) + [x])`: the only sorted arrangement of those ids. */
  lemma InsertIsSorted(x: string, t: seq<string>, sorted: seq<string>)
    requires Sorted(t)
    requires Sorted(sorted) && multiset(sorted) == multiset(t + [x])
    ensures sorted == Insert(x, t)
  {
    InsertFacts(x, t);
    SortedUnique(sorted, Insert(x, t));
  }

  // ---------------------------------------------------------------------------
  // get_available_skills
  // ---------------------------------------------------------------------------

  /** Entry `e` may be acquired next: not yet acquired, every prerequisite acquired. */
  predicate Ready(acquired: set<string>, e: Entry) {
    e.id !in acquired && forall p :: p in e.skill.prereqs ==> p in acquired
  }

  /** The ready ids from position `i` on, in insertion order. */
  function AvailableFrom(c: Catalog, acquired: set<string>, i: nat): seq<string>
    decreases |c| - i
  {
    if i >= |c| then []
    else if Ready(acquired, c[i]) then [c[i].id] + AvailableFrom(c, acquired, i + 1)
    else AvailableFrom(c, acquired, i + 1)
  }

  /** `get_available_skills`: the ids that can be acquired next, in insertion order. */
  function Available(c: Catalog, acquired: set<string>): seq<string> {
    AvailableFrom(c, acquired, 0)
  }

  lemma {:induction false} AvailableFromMeaning(c: Catalog, acquired: set<string>, i: nat)
    requires i <= |c|
    ensures IsSubseq(AvailableFrom(c, acquired, i), Ids(c)[i..])
    ensures forall x :: x in AvailableFrom(c, acquired, i) <==>
              exists j :: i <= j < |c| && c[j].id == x && Ready(acquired, c[j])
    decreases |c| - i
  {
    if i < |c| {
      AvailableFromMeaning(c, acquired, i + 1);
      assert Ids(c)[i..][1..] == Ids(c)[i + 1..];
      assert Ids(c)[i..][0] == c[i].id;
      if !Ready(acquired, c[i]) {
        SubseqSkipHead(AvailableFrom(c, acquired, i + 1), Ids(c)[i..]);
      }
    }
  }

  /**
   The available ids are exactly the ids of entries that are not acquired and
   whose prerequisites are all acquired, listed in insertion order.
   */
  lemma AvailableMeaning(c: Catalog, acquired: set<string>)
    ensures IsSubseq(Available(c, acquired), Ids(c))
    ensures forall x :: x in Available(c, acquired) <==> exists e :: e in c && e.id == x && Ready(acquired, e)
  {
    AvailableFromMeaning(c, acquired, 0);
    assert Ids(c)[0..] == Ids(c);
    forall x ensures x in Available(c, acquired) <==> exists e :: e in c && e.id == x && Ready(acquired, e) {
      if x in Available(c, acquired) {
        var j :| 0 <= j < |c| && c[j].id == x && Ready(acquired, c[j]);
        assert c[j] in c;
      }
      if exists e :: e in c && e.id == x && Ready(acquired, e) {
        var e :| e in c && e.id == x && Ready(acquired, e);
        var j :| 0 <= j < |c| && c[j] == e;
      }
    }
  }

  /** An available id is never one already acquired. */
  lemma AvailableFresh(c: Catalog, acquired: set<string>, x: string)
    requires x in Available(c, acquired)
    ensures x !in acquired
  {
    AvailableMeaning(c, acquired);
  }

  // ---------------------------------------------------------------------------
  // dp_recommendation
  // ---------------------------------------------------------------------------

  /** The market weight of `id`: its table entry, 1.0 when it has none. */
  function Weight(w: map<string, real>, id: string): real {
    if id in w then w[id] else 1.0
  }

  /** The immediate gain of acquiring `id`: its value times its market weight. */
  function Gain(c: Catalog, w: map<string, real>, id: string): real {
    SkillOf(c, id).value as real * Weight(w, id)
  }

  /** The answer of one call: the best expected value and the skill achieving it, if any. */
  datatype Best = Best(value: real, skill: Option<string>)

  /**
   `dp_recommendation(state, steps, weights)`: no steps left or nothing
   available gives (0, None); otherwise the strict-`>` scan over the available
   ids, starting from (-1, None).
   */
  function Dp(c: Catalog, w: map<string, real>, state: seq<string>, steps: nat): Best
    decreases steps, 2
  {
    if steps == 0 then Best(0.0, None)
    else
      var avail := Available(c, Elems(state));
      if |avail| == 0 then Best(0.0, None)
      else Scan(c, w, state, steps, avail, 0, Best(-1.0, None))
  }

  /** The expected value of acquiring `x` now: its gain plus the best value one step later. */
  function Expected(c: Catalog, w: map<string, real>, state: seq<string>, steps: nat, x: string): real
    requires steps > 0
    decreases steps, 0
  {
    Gain(c, w, x) + Dp(c, w, Insert(x, state), steps - 1).value
  }

  /** The loop over the candidates from position `i` on, with the best so far in `acc`. */
  function Scan(c: Catalog, w: map<string, real>, state: seq<string>, steps: nat,
                avail: seq<string>, i: nat, acc: Best): Best
    requires steps > 0 && i <= |avail|
    decreases steps, 1, |avail| - i
  {
    if i == |avail| then acc
    else
      var v := Expected(c, w, state, steps, avail[i]);
      Scan(c, w, state, steps, avail, i + 1, if v > acc.value then Best(v, Some(avail[i])) else acc)
  }

  /** The scan ends with a value at least the starting one and at least every expected value it visits. */
  lemma {:induction false} ScanBound(c: Catalog, w: map<string, real>, state: seq<string>, steps: nat,
                                     avail: seq<string>, i: nat, acc: Best)
    requires steps > 0 && i <= |avail|
    ensures Scan(c, w, state, steps, avail, i, acc).value >= acc.value
    ensures forall j :: i <= j < |avail| ==> Expected(c, w, state, steps, avail[j]) <= Scan(c, w, state, steps, avail, i, acc).value
    decreases |avail| - i
  {
    if i < |avail| {
      var v := Expected(c, w, state, steps, avail[i]);
      ScanBound(c, w, state, steps, avail, i + 1, if v > acc.value then Best(v, Some(avail[i])) else acc);
    }
  }

  /**
   `avail[k]` is the first candidate from position `i` on whose expected value
   reaches `v`: all those scanned before it fall strictly below.
   */
  predicate FirstBest(c: Catalog, w: map<string, real>, state: seq<string>, steps: nat,
                      avail: seq<string>, i: nat, k: nat, v: real)
  {
    steps > 0 && i <= k < |avail| && Expected(c, w, state, steps, avail[k]) == v
    && forall j :: i <= j < k ==> Expected(c, w, state, steps, avail[j]) < v
  }

  /**
   The scan either keeps the starting answer or ends on the first candidate
   whose expected value is the one it returns, above the starting value.
   */
  lemma {:induction false} ScanWitness(c: Catalog, w: map<string, real>, state: seq<string>, steps: nat,
                                       avail: seq<string>, i: nat, acc: Best)
    requires steps > 0 && i <= |avail|
    ensures var r := Scan(c, w, state, steps, avail, i, acc);
      r == acc || (r.value > acc.value && r.skill.Some?
        && exists k: nat :: FirstBest(c, w, state, steps, avail, i, k, r.value) && avail[k] == r.skill.value)
    decreases |avail| - i
  {
    if i < |avail| {
      var v := Expected(c, w, state, steps, avail[i]);
      var next := if v > acc.value then Best(v, Some(avail[i])) else acc;
      var r := Scan(c, w, state, steps, avail, i, acc);
      assert r == Scan(c, w, state, steps, avail, i + 1, next);
      ScanWitness(c, w, state, steps, avail, i + 1, next);
      if r != next {
        var k: nat :| FirstBest(c, w, state, steps, avail, i + 1, k, r.value) && avail[k] == r.skill.value;
        assert v <= next.value < r.value;
        assert FirstBest(c, w, state, steps, avail, i, k, r.value);
      } else if v > acc.value {
        assert FirstBest(c, w, state, steps, avail, i, i, r.value);
      }
    }
  }

  /**
   Outside the two (0, None) cases, the answer is the largest expected value
   over the available ids, reached first by the returned id; when every
   expected value is at most -1 the answer stays (-1, None).
   */
  lemma DpMeaning(c: Catalog, w: map<string, real>, state: seq<string>, steps: nat)
    ensures steps == 0 ==> Dp(c, w, state, steps) == Best(0.0, None)
    ensures Available(c, Elems(state)) == [] ==> Dp(c, w, state, steps) == Best(0.0, None)
    ensures steps > 0 ==> var avail := Available(c, Elems(state)); var r := Dp(c, w, state, steps);
      && (forall j :: 0 <= j < |avail| ==> Expected(c, w, state, steps, avail[j]) <= r.value)
      && (r.skill.None? ==> r.value == if avail == [] then 0.0 else -1.0)
      && (r.skill.Some? ==> exists k: nat :: FirstBest(c, w, state, steps, avail, 0, k, r.value) && avail[k] == r.skill.value)
  {
    if steps > 0 && Available(c, Elems(state)) != [] {
      ScanBound(c, w, state, steps, Available(c, Elems(state)), 0, Best(-1.0, None));
      ScanWitness(c, w, state, steps, Available(c, Elems(state)), 0, Best(-1.0, None));
    }
  }

  /** No negative weight. */
  predicate NonNegative(w: map<string, real>) {
    forall id :: id in w ==> w[id] >= 0.0
  }

  lemma GainNonNegative(c: Catalog, w: map<string, real>, x: string)
    requires NonNegative(w)
    ensures Gain(c, w, x) >= 0.0
  {
    var v := SkillOf(c, x).value as real;
    var f := Weight(w, x);
    assert v >= 0.0 && f >= 0.0;
    assert v * f >= 0.0;
  }

  /**
   With no negative weight the best value is never negative, and a skill is
   named exactly when steps remain and some skill is available.
   */
  lemma {:induction false} DpNonNegative(c: Catalog, w: map<string, real>, state: seq<string>, steps: nat)
    requires NonNegative(w)
    ensures Dp(c, w, state, steps).value >= 0.0
    ensures Dp(c, w, state, steps).skill.Some? <==> steps > 0 && Available(c, Elems(state)) != []
    decreases steps
  {
    DpMeaning(c, w, state, steps);
    var avail := Available(c, Elems(state));
    if steps > 0 && avail != [] {
      DpNonNegative(c, w, Insert(avail[0], state), steps - 1);
      GainNonNegative(c, w, avail[0]);
      assert Expected(c, w, state, steps, avail[0]) >= 0.0;
    }
  }

  /**
   The answer depends only on the set of acquired ids, never on how the tuple
   lists them: two states with the same ids get the same answer, which is what
   makes the cache keyed by the tuple sound.
   */
  lemma {:induction false} DpDependsOnSet(c: Catalog, w: map<string, real>, s: seq<string>, t: seq<string>, steps: nat)
    requires Sorted(s) && Sorted(t) && Elems(s) == Elems(t)
    ensures Dp(c, w, s, steps) == Dp(c, w, t, steps)
    decreases steps, 1
  {
    if steps > 0 {
      var avail := Available(c, Elems(s));
      if avail != [] {
        forall x | x in avail ensures Expected(c, w, s, steps, x) == Expected(c, w, t, steps, x) {
          ExpectedDependsOnSet(c, w, s, t, steps, x);
        }
        ScanSame(c, w, s, t, steps, avail, 0, Best(-1.0, None));
      }
    }
  }

  lemma {:induction false} ExpectedDependsOnSet(c: Catalog, w: map<string, real>, s: seq<string>, t: seq<string>,
                                                steps: nat, x: string)
    requires Sorted(s) && Sorted(t) && Elems(s) == Elems(t) && steps > 0
    ensures Expected(c, w, s, steps, x) == Expected(c, w, t, steps, x)
    decreases steps, 0
  {
    InsertFacts(x, s);
    InsertFacts(x, t);
    InsertElems(x, s);
    InsertElems(x, t);
    DpDependsOnSet(c, w, Insert(x, s), Insert(x, t), steps - 1);
  }

  lemma {:induction false} ScanSame(c: Catalog, w: map<string, real>, s: seq<string>, t: seq<string>, steps: nat,
                                    avail: seq<string>, i: nat, acc: Best)
    requires steps > 0 && i <= |avail|
    requires forall x :: x in avail ==> Expected(c, w, s, steps, x) == Expected(c, w, t, steps, x)
    ensures Scan(c, w, s, steps, avail, i, acc) == Scan(c, w, t, steps, avail, i, acc)
    decreases |avail| - i
  {
    if i < |avail| {
      assert Expected(c, w, s, steps, avail[i]) == Expected(c, w, t, steps, avail[i]);
      var v := Expected(c, w, s, steps, avail[i]);
      ScanSame(c, w, s, t, steps, avail, i + 1, if v > acc.value then Best(v, Some(avail[i])) else acc);
    }
  }

  // ---------------------------------------------------------------------------
  // Plans: the reference the recursion is measured against
  // ---------------------------------------------------------------------------

  /** `p` can be acquired in order from `acquired`: each id is available when its turn comes. */
  predicate Feasible(c: Catalog, acquired: set<string>, p: seq<string>)
    decreases |p|
  {
    |p| == 0 || (p[0] in Available(c, acquired) && Feasible(c, acquired + {p[0]}, p[1..]))
  }

  /** The total gain along a plan. */
  function PlanValue(c: Catalog, w: map<string, real>, p: seq<string>): real {
    if |p| == 0 then 0.0 else Gain(c, w, p[0]) + PlanValue(c, w, p[1..])
  }

  /** A feasible plan never repeats an id and never names an id already acquired. */
  lemma {:induction false} FeasibleFresh(c: Catalog, acquired: set<string>, p: seq<string>)
    requires Feasible(c, acquired, p)
    ensures Distinct(p)
    ensures forall x :: x in p ==> x !in acquired
    decreases |p|
  {
    if |p| > 0 {
      FeasibleFresh(c, acquired + {p[0]}, p[1..]);
      AvailableFresh(c, acquired, p[0]);
      forall i, j | 0 <= i < j < |p| ensures p[i] != p[j] {
        assert p[j] == p[1..][j - 1];
        if i > 0 { assert p[i] == p[1..][i - 1]; }
      }
      forall x | x in p ensures x !in acquired {
        if x != p[0] { assert x in p[1..]; }
      }
    }
  }

  /**
   With no negative weight the look-ahead is optimal: no feasible plan of at
   most `steps` skills is worth more than the recursion's answer.
   */
  lemma {:induction false} DpOptimal(c: Catalog, w: map<string, real>, state: seq<string>, steps: nat, p: seq<string>)
    requires NonNegative(w) && Sorted(state)
    requires Feasible(c, Elems(state), p) && |p| <= steps
    ensures PlanValue(c, w, p) <= Dp(c, w, state, steps).value
    decreases steps
  {
    if |p| == 0 {
      DpNonNegative(c, w, state, steps);
    } else {
      var x := p[0];
      InsertFacts(x, state);
      InsertElems(x, state);
      DpOptimal(c, w, Insert(x, state), steps - 1, p[1..]);
      ExpectedAtMost(c, w, state, steps, x);
    }
  }

  /**
   With no negative weight the answer is achieved: following the named skills
   gives a feasible plan of at most `steps` skills worth exactly the answer.
   */
  lemma {:induction false} DpAchieved(c: Catalog, w: map<string, real>, state: seq<string>, steps: nat)
      returns (p: seq<string>)
    requires NonNegative(w) && Sorted(state)
    ensures Feasible(c, Elems(state), p) && |p| <= steps
    ensures PlanValue(c, w, p) == Dp(c, w, state, steps).value
    decreases steps
  {
    var r := Dp(c, w, state, steps);
    if r.skill.None? {
      NoneIsZero(c, w, state, steps);
      p := [];
    } else {
      var x := r.skill.value;
      ChosenStep(c, w, state, steps);
      var q := DpAchieved(c, w, Insert(x, state), steps - 1);
      p := [x] + q;
      assert p[1..] == q;
    }
  }

  /** When no catalog id is empty, no available id is empty either. */
  lemma AvailableNamed(c: Catalog, acquired: set<string>)
    ensures NamedIds(c) ==> forall x :: x in Available(c, acquired) ==> x != ""
  {
    AvailableMeaning(c, acquired);
  }

  // ---------------------------------------------------------------------------
  // solve_challenge_5
  // ---------------------------------------------------------------------------

  /** The driver's answer: the recommended ids and the value it reports. */
  datatype Advice = Advice(skills: seq<string>, value: real)

  /** Python's truth test on the returned id: None and the empty id both stop the loop. */
  predicate Named(b: Best) {
    b.skill.Some? && b.skill.value != ""
  }

  /**
   The driver's loop from step `step` on: ask for the best skill with
   `Horizon - step` steps left; a named skill is recommended and inserted into
   the state, anything else ends the loop. The value is the last call's.
   */
  function Drive(c: Catalog, w: map<string, real>, state: seq<string>, step: nat): Advice
    requires step < Horizon
    decreases Horizon - step
  {
    var b := Dp(c, w, state, Horizon - step);
    if !Named(b) then Advice([], b.value)
    else if step + 1 == Horizon then Advice([b.skill.value], b.value)
    else
      var rest := Drive(c, w, Insert(b.skill.value, state), step + 1);
      Advice([b.skill.value] + rest.skills, rest.value)
  }

  /** The state after inserting the ids of `p` one after the other. */
  function InsertAll(p: seq<string>, state: seq<string>): seq<string> {
    if |p| == 0 then state else InsertAll(p[1..], Insert(p[0], state))
  }

  /** The state the driver starts from: the given profile, or the default one, sorted. */
  function StartState(profile: Option<seq<string>>): seq<string> {
    SortIds(if profile.Some? then profile.value else DefaultProfile)
  }

  /**
   `solve_challenge_5` as written: the reported value is whatever the last
   call of the loop returned.
   */
  function SolveRecommend(c: Catalog, w: map<string, real>, profile: Option<seq<string>>): Advice {
    Drive(c, w, StartState(profile), 0)
  }

  /** The evidently intended report: the same skills, with the first call's value over the whole horizon. */
  function SolveRecommendIntended(c: Catalog, w: map<string, real>, profile: Option<seq<string>>): Advice {
    Advice(SolveRecommend(c, w, profile).skills, Dp(c, w, StartState(profile), Horizon).value)
  }

  /** No catalog id is empty, so Python's truth test on an id is a test for None. */
  predicate NamedIds(c: Catalog) {
    forall e :: e in c ==> e.id != ""
  }

  /** A call that names a skill names an available one, worth its gain plus the answer one step later. */
  lemma ChosenStep(c: Catalog, w: map<string, real>, state: seq<string>, steps: nat)
    requires Sorted(state) && Dp(c, w, state, steps).skill.Some?
    ensures steps > 0
    ensures var x := Dp(c, w, state, steps).skill.value;
      && x in Available(c, Elems(state))
      && Dp(c, w, state, steps).value == Gain(c, w, x) + Dp(c, w, Insert(x, state), steps - 1).value
      && Sorted(Insert(x, state))
      && Elems(Insert(x, state)) == Elems(state) + {x}
  {
    var x := Dp(c, w, state, steps).skill.value;
    DpMeaning(c, w, state, steps);
    var avail := Available(c, Elems(state));
    var k :| 0 <= k < |avail| && avail[k] == x && Dp(c, w, state, steps).value == Expected(c, w, state, steps, avail[k]);
    InsertFacts(x, state);
    InsertElems(x, state);
  }

  /** Acquiring any available id now is worth at most the answer. */
  lemma ExpectedAtMost(c: Catalog, w: map<string, real>, state: seq<string>, steps: nat, x: string)
    requires steps > 0 && x in Available(c, Elems(state))
    ensures Gain(c, w, x) + Dp(c, w, Insert(x, state), steps - 1).value <= Dp(c, w, state, steps).value
  {
    DpMeaning(c, w, state, steps);
    var avail := Available(c, Elems(state));
    var k :| 0 <= k < |avail| && avail[k] == x;
    assert Expected(c, w, state, steps, avail[k]) <= Dp(c, w, state, steps).value;
  }

  /** With no negative weight, a call that names nothing answers 0. */
  lemma NoneIsZero(c: Catalog, w: map<string, real>, state: seq<string>, steps: nat)
    requires NonNegative(w) && Dp(c, w, state, steps).skill.None?
    ensures Dp(c, w, state, steps).value == 0.0
  {
    DpNonNegative(c, w, state, steps);
    DpMeaning(c, w, state, steps);
  }

  /** With no negative weight and no empty id, a call that names nothing answers 0. */
  lemma UnnamedStep(c: Catalog, w: map<string, real>, state: seq<string>, steps: nat)
    requires NonNegative(w) && NamedIds(c) && !Named(Dp(c, w, state, steps))
    ensures Dp(c, w, state, steps).value == 0.0
  {
    DpSkillAvailable(c, w, state, steps);
    AvailableNamed(c, Elems(state));
    NoneIsZero(c, w, state, steps);
  }

  /** A named skill is always one of the available ids. */
  lemma DpSkillAvailable(c: Catalog, w: map<string, real>, state: seq<string>, steps: nat)
    ensures Dp(c, w, state, steps).skill.Some? ==> Dp(c, w, state, steps).skill.value in Available(c, Elems(state))
  {
    DpMeaning(c, w, state, steps);
    if Dp(c, w, state, steps).skill.Some? {
      var avail := Available(c, Elems(state));
      var k :| 0 <= k < |avail| && avail[k] == Dp(c, w, state, steps).skill.value;
    }
  }

  /** The loop from `step` recommends a feasible plan of at most `Horizon - step` skills from the current state. */
  lemma {:induction false} DriveShape(c: Catalog, w: map<string, real>, state: seq<string>, step: nat)
    requires step < Horizon && Sorted(state)
    ensures |Drive(c, w, state, step).skills| <= Horizon - step
    ensures Feasible(c, Elems(state), Drive(c, w, state, step).skills)
    decreases Horizon - step
  {
    var a := Drive(c, w, state, step);
    var b := Dp(c, w, state, Horizon - step);
    if Named(b) {
      var x := b.skill.value;
      ChosenStep(c, w, state, Horizon - step);
      if step + 1 < Horizon {
        DriveShape(c, w, Insert(x, state), step + 1);
        assert a.skills[1..] == Drive(c, w, Insert(x, state), step + 1).skills;
      } else {
        assert a.skills == [x] && [x][1..] == [];
      }
    }
  }

  /** The loop ends early only on a call that names nothing, and then reports that call's value. */
  lemma {:induction false} DriveStops(c: Catalog, w: map<string, real>, state: seq<string>, step: nat)
    requires step < Horizon
    ensures var a := Drive(c, w, state, step);
      |a.skills| < Horizon - step ==>
        var last := Dp(c, w, InsertAll(a.skills, state), Horizon - step - |a.skills|);
        !Named(last) && a.value == last.value
    decreases Horizon - step
  {
    var a := Drive(c, w, state, step);
    var b := Dp(c, w, state, Horizon - step);
    if Named(b) && step + 1 < Horizon {
      var x := b.skill.value;
      var rest := Drive(c, w, Insert(x, state), step + 1);
      DriveStops(c, w, Insert(x, state), step + 1);
      assert a.skills == [x] + rest.skills;
      assert a.skills[1..] == rest.skills;
      assert InsertAll(a.skills, state) == InsertAll(rest.skills, Insert(x, state));
    } else if !Named(b) {
      assert a.skills == [];
    }
  }

  /**
   With no negative weight and no empty id, the recommended plan is worth the
   first call's value: the driver follows an optimal plan.
   */
  lemma {:induction false} DrivePlanValue(c: Catalog, w: map<string, real>, state: seq<string>, step: nat)
    requires step < Horizon && Sorted(state) && NonNegative(w) && NamedIds(c)
    ensures PlanValue(c, w, Drive(c, w, state, step).skills) == Dp(c, w, state, Horizon - step).value
    decreases Horizon - step
  {
    var a := Drive(c, w, state, step);
    var b := Dp(c, w, state, Horizon - step);
    if Named(b) {
      var x := b.skill.value;
      ChosenStep(c, w, state, Horizon - step);
      assert PlanValue(c, w, a.skills) == Gain(c, w, x) + PlanValue(c, w, a.skills[1..]);
      if step + 1 < Horizon {
        DrivePlanValue(c, w, Insert(x, state), step + 1);
        assert a.skills[1..] == Drive(c, w, Insert(x, state), step + 1).skills;
      } else {
        assert a.skills == [x] && [x][1..] == [];
      }
    } else {
      UnnamedStep(c, w, state, Horizon - step);
    }
  }

  /**
   With no negative weight and no empty id, the value the driver reports is
   the last call's: 0 after an early stop, the last skill's own gain after a
   full run, rather than the plan's worth.
   */
  lemma {:induction false} DriveReported(c: Catalog, w: map<string, real>, state: seq<string>, step: nat)
    requires step < Horizon && Sorted(state) && NonNegative(w) && NamedIds(c)
    ensures var a := Drive(c, w, state, step);
      |a.skills| < Horizon - step ==> a.value == 0.0
    ensures var a := Drive(c, w, state, step);
      |a.skills| == Horizon - step ==> a.value == Gain(c, w, a.skills[|a.skills| - 1])
    decreases Horizon - step
  {
    var b := Dp(c, w, state, Horizon - step);
    if Named(b) {
      if step + 1 < Horizon {
        var x := b.skill.value;
        ChosenStep(c, w, state, Horizon - step);
        DriveReported(c, w, Insert(x, state), step + 1);
        DriveLastOfRest(c, w, state, step);
      } else {
        LastCallGain(c, w, state);
      }
    } else {
      UnnamedStep(c, w, state, Horizon - step);
    }
  }

  /** A named answer with one step left is worth its own gain. */
  lemma LastCallGain(c: Catalog, w: map<string, real>, state: seq<string>)
    requires Sorted(state) && Named(Dp(c, w, state, 1))
    ensures Dp(c, w, state, 1).value == Gain(c, w, Dp(c, w, state, 1).skill.value)
  {
    var x := Dp(c, w, state, 1).skill.value;
    ChosenStep(c, w, state, 1);
    assert Dp(c, w, Insert(x, state), 0).value == 0.0;
  }

  /** Before the last step, a named answer leads the advice, which ends as the rest of the run ends. */
  lemma DriveLastOfRest(c: Catalog, w: map<string, real>, state: seq<string>, step: nat)
    requires step + 1 < Horizon && Named(Dp(c, w, state, Horizon - step))
    ensures var x := Dp(c, w, state, Horizon - step).skill.value;
      var a := Drive(c, w, state, step);
      var rest := Drive(c, w, Insert(x, state), step + 1);
      && a.skills == [x] + rest.skills && a.value == rest.value
      && (|rest.skills| > 0 ==> a.skills[|a.skills| - 1] == rest.skills[|rest.skills| - 1])
  {
  }

  /** The profile the driver starts from, as a list. */
  function ProfileOf(profile: Option<seq<string>>): seq<string> {
    if profile.Some? then profile.value else DefaultProfile
  }

  lemma StartStateFacts(profile: Option<seq<string>>)
    ensures Sorted(StartState(profile))
    ensures Elems(StartState(profile)) == Elems(ProfileOf(profile))
  {
    SortIdsFacts(ProfileOf(profile));
    var t := StartState(profile);
    forall y ensures y in t <==> y in ProfileOf(profile) {
      assert y in t <==> y in multiset(t);
      assert y in ProfileOf(profile) <==> y in multiset(ProfileOf(profile));
    }
  }

  /**
   `solve_challenge_5`: at most three recommendations, acquirable in order from
   the profile (each available at its step), pairwise distinct and none
   already in the profile; fewer than three only when a call named nothing.
   */
  lemma SolveRecommendMeaning(c: Catalog, w: map<string, real>, profile: Option<seq<string>>)
    ensures var a := SolveRecommend(c, w, profile);
      && |a.skills| <= Horizon
      && Feasible(c, Elems(ProfileOf(profile)), a.skills)
      && Distinct(a.skills)
      && (forall x :: x in a.skills ==> x !in ProfileOf(profile))
    ensures var a := SolveRecommend(c, w, profile);
      |a.skills| < Horizon ==>
        var last := Dp(c, w, InsertAll(a.skills, StartState(profile)), Horizon - |a.skills|);
        !Named(last) && a.value == last.value
  {
    StartStateFacts(profile);
    DriveShape(c, w, StartState(profile), 0);
    DriveStops(c, w, StartState(profile), 0);
    FeasibleFresh(c, Elems(ProfileOf(profile)), SolveRecommend(c, w, profile).skills);
  }

  /**
   With no negative weight and no empty id the recommendations form an optimal
   plan: worth the look-ahead's value over the whole horizon, and at least as
   much as any plan of at most three skills acquirable from the profile.
   */
  lemma SolveRecommendOptimal(c: Catalog, w: map<string, real>, profile: Option<seq<string>>, p: seq<string>)
    requires NonNegative(w) && NamedIds(c)
    requires Feasible(c, Elems(ProfileOf(profile)), p) && |p| <= Horizon
    ensures PlanValue(c, w, SolveRecommend(c, w, profile).skills) == SolveRecommendIntended(c, w, profile).value
    ensures PlanValue(c, w, p) <= PlanValue(c, w, SolveRecommend(c, w, profile).skills)
  {
    StartStateFacts(profile);
    DrivePlanValue(c, w, StartState(profile), 0);
    DpOptimal(c, w, StartState(profile), Horizon, p);
  }

  /**
   The value `solve_challenge_5` reports is the last call's, not the plan's
   worth: 0 when fewer than three skills were recommended, the last skill's own
   gain when three were.
   */
  lemma SolveRecommendReported(c: Catalog, w: map<string, real>, profile: Option<seq<string>>)
    requires NonNegative(w) && NamedIds(c)
    ensures var a := SolveRecommend(c, w, profile);
      |a.skills| < Horizon ==> a.value == 0.0
    ensures var a := SolveRecommend(c, w, profile);
      |a.skills| == Horizon ==> a.value == Gain(c, w, a.skills[Horizon - 1])
  {
    StartStateFacts(profile);
    DriveReported(c, w, StartState(profile), 0);
  }

  /**
   A catalog of one skill without prerequisites and an empty profile: the
   skill is recommended, the plan is worth its gain, yet the reported value is 0.
   */
  lemma LoneSkillReportsZero(a: string, s: Skill)
    requires a != "" && s.prereqs == [] && s.value > 0
    ensures SolveRecommend([Entry(a, s)], map[], Some([])).skills == [a]
    ensures SolveRecommend([Entry(a, s)], map[], Some([])).value == 0.0
    ensures SolveRecommendIntended([Entry(a, s)], map[], Some([])).value == s.value as real
  {
    var c := [Entry(a, s)];
    var w: map<string, real> := map[];
    assert Ready({}, c[0]);
    assert AvailableFrom(c, {}, 1) == [];
    assert AvailableFrom(c, {}, 0) == [a] + [];
    assert Available(c, {}) == [a];
    assert Lookup(c, a) == Some(s);
    assert Gain(c, w, a) == s.value as real;
    var st := Insert(a, []);
    assert st == [a];
    assert Elems(st) == {a};
    assert !Ready({a}, c[0]);
    assert AvailableFrom(c, {a}, 1) == [];
    assert Available(c, {a}) == [];
    assert Dp(c, w, st, 2) == Best(0.0, None);
    assert Expected(c, w, [], 3, a) == s.value as real;
    assert StartState(Some([])) == [];
    assert Elems(StartState(Some([]))) == {};
    assert Dp(c, w, [], 3) == Best(s.value as real, Some(a));
  }

  /** The shipped market weights are all non-negative. */
  lemma MarketWeightsNonNegative()
    ensures NonNegative(MarketWeights)
  {
  }

  /** No shipped skill id is empty, so the driver's truth test on a named id never stops it. */
  lemma MasterNamed()
    ensures NamedIds(Shipped.Master)
  {
    Shipped.MasterKeysAre();
    Shipped.MasterKeysNamed();
    NoEmptyKey(Shipped.Master, Shipped.MasterKeys);
  }

  /** A catalog whose keys are a set without the empty string names every entry. */
  lemma NoEmptyKey(c: Catalog, keys: set<string>)
    requires Registry.Keys(c) == keys && "" !in keys
    ensures NamedIds(c)
  {
    forall e | e in c ensures e.id != "" {
      assert e.id in Registry.Keys(c);
    }
  }

  /**
   The run the program makes, on the shipped catalog and market weights from
   the default profile: the recommendations are worth at least any plan of at
   most three skills acquirable from S1 and S2, and the value reported is the
   last call's.
   */
  lemma ShippedRecommendation(p: seq<string>)
    requires Feasible(Shipped.Master, Elems(DefaultProfile), p) && |p| <= Horizon
    ensures var a := SolveRecommend(Shipped.Master, MarketWeights, None);
            PlanValue(Shipped.Master, MarketWeights, a.skills) == SolveRecommendIntended(Shipped.Master, MarketWeights, None).value &&
            PlanValue(Shipped.Master, MarketWeights, p) <= PlanValue(Shipped.Master, MarketWeights, a.skills)
    ensures var a := SolveRecommend(Shipped.Master, MarketWeights, None);
            (|a.skills| < Horizon ==> a.value == 0.0) &&
            (|a.skills| == Horizon ==> a.value == Gain(Shipped.Master, MarketWeights, a.skills[Horizon - 1]))
  {
    MarketWeightsNonNegative();
    MasterNamed();
    assert ProfileOf(None) == DefaultProfile;
    SolveRecommendOptimal(Shipped.Master, MarketWeights, None, p);
    SolveRecommendReported(Shipped.Master, MarketWeights, None);
  }
}
