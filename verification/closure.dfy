/**
 The maximum-value path of the first challenge: the transitive prerequisite
 closure of a target skill, with value, time and complexity totals that count
 each distinct skill once, and the verdict against the time and complexity
 ceilings.
 */
module Closure {
  import opened Wrappers
  import opened Registry
  import opened Shipped

  /** `(valor_total, tempo_total, complexidade_total, conjunto_habilidades)`. */
  datatype Totals = Totals(value: nat, time: nat, complexity: nat, skills: set<string>)

  /** Each total is the attribute summed over the distinct skills of the set, each once. */
  predicate Consistent(c: Catalog, t: Totals) {
    && t.value == SumOver(c, t.skills, Value)
    && t.time == SumOver(c, t.skills, Time)
    && t.complexity == SumOver(c, t.skills, Complexity)
  }

  /** The termination measure of the recursion: a key one above its rank, an unknown id at the bottom. */
  function Height(c: Catalog, rank: map<string, nat>, id: string): nat {
    if id in Keys(c) && id in rank then rank[id] + 1 else 0
  }

  lemma HeightDrops(c: Catalog, rank: map<string, nat>, id: string, p: string)
    requires ValidRank(c, rank) && id in Keys(c) && p in PrereqsOf(c, id)
    ensures Height(c, rank, p) < Height(c, rank, id)
  {
    var e :| e in c && e.id == id;
    assert Lookup(c, id).Some?;
    assert Entry(id, SkillOf(c, id)) in c;
  }

  /**
   `find_optimal_path_set`: an unknown id gives empty totals, a skill without
   prerequisites gives its own attributes, and otherwise the closures of the
   prerequisites are merged in list order, adding only the skills not yet counted.
   The rank is the acyclicity the recursion relies on to terminate.
   */
  function Closure(c: Catalog, rank: map<string, nat>, id: string): (r: Totals)
    requires UniqueIds(c) && ValidRank(c, rank)
    ensures id !in Keys(c) ==> r == Totals(0, 0, 0, {})
    ensures id in Keys(c) ==> id in r.skills
    ensures r.skills <= Keys(c)
    ensures Consistent(c, r)
    decreases Height(c, rank, id), 1
  {
    match Lookup(c, id)
    case None =>
      SumFromEmpty(c, Value, 0);
      SumFromEmpty(c, Time, 0);
      SumFromEmpty(c, Complexity, 0);
      Totals(0, 0, 0, {})
    case Some(s) =>
      SumOverSingleton(c, id, Value);
      SumOverSingleton(c, id, Time);
      SumOverSingleton(c, id, Complexity);
      var own := Totals(s.value, s.time, s.complexity, {id});
      if |s.prereqs| == 0 then own
      else Fold(c, rank, id, s.prereqs, 0, own)
  }

  /**
   One step of the loop: add the totals of the skills of `sub` not yet in the
   accumulated set (only when there are any), then join the sets.
   */
  function Absorb(c: Catalog, acc: Totals, sub: Totals): (r: Totals)
    requires Consistent(c, acc)
    ensures r.skills == acc.skills + sub.skills
    ensures Consistent(c, r)
  {
    var added := sub.skills - acc.skills;
    assert acc.skills + sub.skills == acc.skills + added;
    SumOverUnion(c, acc.skills, added, Value);
    SumOverUnion(c, acc.skills, added, Time);
    SumOverUnion(c, acc.skills, added, Complexity);
    if added != {} then
      Totals(acc.value + SumOver(c, added, Value),
             acc.time + SumOver(c, added, Time),
             acc.complexity + SumOver(c, added, Complexity),
             acc.skills + sub.skills)
    else
      assert acc.skills + sub.skills == acc.skills;
      acc.(skills := acc.skills + sub.skills)
  }

  /** The loop over `prereq_results` from position `i`, accumulating into `acc`. */
  function Fold(c: Catalog, rank: map<string, nat>, owner: string, ps: seq<string>, i: nat, acc: Totals): (r: Totals)
    requires UniqueIds(c) && ValidRank(c, rank)
    requires owner in Keys(c) && ps == PrereqsOf(c, owner) && i <= |ps|
    requires acc.skills <= Keys(c) && Consistent(c, acc)
    ensures acc.skills <= r.skills <= Keys(c)
    ensures Consistent(c, r)
    decreases Height(c, rank, owner), 0, |ps| - i
  {
    if i == |ps| then acc
    else
      HeightDrops(c, rank, owner, ps[i]);
      Fold(c, rank, owner, ps, i + 1, Absorb(c, acc, Closure(c, rank, ps[i])))
  }

  /** The fold's set is the accumulator joined with the closures of the remaining prerequisites. */
  lemma {:induction false} FoldSkills(c: Catalog, rank: map<string, nat>, owner: string, ps: seq<string>, i: nat, acc: Totals)
    requires UniqueIds(c) && ValidRank(c, rank)
    requires owner in Keys(c) && ps == PrereqsOf(c, owner) && i <= |ps|
    requires acc.skills <= Keys(c) && Consistent(c, acc)
    ensures forall x :: x in Fold(c, rank, owner, ps, i, acc).skills <==>
              x in acc.skills || exists j :: i <= j < |ps| && x in Closure(c, rank, ps[j]).skills
    decreases |ps| - i
  {
    if i < |ps| {
      HeightDrops(c, rank, owner, ps[i]);
      var next := Absorb(c, acc, Closure(c, rank, ps[i]));
      FoldSkills(c, rank, owner, ps, i + 1, next);
    }
  }

  /** The closure of a known skill is itself joined with the closures of its direct prerequisites. */
  lemma ClosureUnion(c: Catalog, rank: map<string, nat>, id: string)
    requires UniqueIds(c) && ValidRank(c, rank) && id in Keys(c)
    ensures forall x :: x in Closure(c, rank, id).skills <==>
              x == id || exists p :: p in PrereqsOf(c, id) && x in Closure(c, rank, p).skills
  {
    var s := SkillOf(c, id);
    var ps := s.prereqs;
    assert Lookup(c, id) == Some(s);
    var own := Totals(s.value, s.time, s.complexity, {id});
    SumOverSingleton(c, id, Value);
    SumOverSingleton(c, id, Time);
    SumOverSingleton(c, id, Complexity);
    if |ps| > 0 {
      var r := Fold(c, rank, id, ps, 0, own);
      assert Closure(c, rank, id) == r;
      FoldSkills(c, rank, id, ps, 0, own);
      forall x ensures x in r.skills <==> x == id || exists p :: p in ps && x in Closure(c, rank, p).skills {
        if exists p :: p in ps && x in Closure(c, rank, p).skills {
          var p :| p in ps && x in Closure(c, rank, p).skills;
          var j :| 0 <= j < |ps| && ps[j] == p;
          assert x in r.skills;
        }
      }
    } else {
      assert Closure(c, rank, id) == own;
    }
  }

  /** With no orphan ids, every prerequisite of a member of the closure is also a member. */
  lemma {:induction false} ClosureClosed(c: Catalog, rank: map<string, nat>, id: string)
    requires UniqueIds(c) && ValidRank(c, rank) && NoOrphans(c)
    ensures forall x, p :: x in Closure(c, rank, id).skills && p in PrereqsOf(c, x) ==>
              p in Closure(c, rank, id).skills
    decreases Height(c, rank, id)
  {
    if id in Keys(c) {
      ClosureUnion(c, rank, id);
      forall x, p | x in Closure(c, rank, id).skills && p in PrereqsOf(c, x)
        ensures p in Closure(c, rank, id).skills
      {
        if x == id {
          assert Entry(id, SkillOf(c, id)) in c;
        } else {
          var q :| q in PrereqsOf(c, id) && x in Closure(c, rank, q).skills;
          HeightDrops(c, rank, id, q);
          ClosureClosed(c, rank, q);
        }
      }
    }
  }

  /** The closure lies inside every prerequisite-closed set that contains the skill: it is the least one. */
  lemma {:induction false} ClosureMinimal(c: Catalog, rank: map<string, nat>, id: string, s: set<string>)
    requires UniqueIds(c) && ValidRank(c, rank)
    requires id in s
    requires forall x, p :: x in s && p in PrereqsOf(c, x) ==> p in s
    ensures Closure(c, rank, id).skills <= s
    decreases Height(c, rank, id)
  {
    if id in Keys(c) {
      ClosureUnion(c, rank, id);
      forall x | x in Closure(c, rank, id).skills ensures x in s {
        if x != id {
          var q :| q in PrereqsOf(c, id) && x in Closure(c, rank, q).skills;
          HeightDrops(c, rank, id, q);
          ClosureMinimal(c, rank, q, s);
        }
      }
    }
  }

  // ---------------------------------------------------------------------------
  // The verdict of `solve_challenge_1`
  // ---------------------------------------------------------------------------

  const TimeCeiling: nat := 350
  const ComplexityCeiling: nat := 30
  const Target: string := "S6"

  datatype Status = Feasible | ConstraintsExceeded

  /** The deterministic result record; the path is kept as a set. */
  datatype Plan = Plan(status: Status, value: nat, time: nat, complexity: nat, path: set<string>)

  /**
   The ceiling branch: exceeding either ceiling reports failure with value 0,
   otherwise the totals are reported; time, complexity and path are reported either way.
   */
  function Decide(t: Totals): (p: Plan)
    ensures p.status == ConstraintsExceeded <==> t.time > TimeCeiling || t.complexity > ComplexityCeiling
    ensures p.status == Feasible ==> p.value == t.value
    ensures p.status == ConstraintsExceeded ==> p.value == 0
    ensures p.time == t.time && p.complexity == t.complexity && p.path == t.skills
  {
    if t.time > TimeCeiling || t.complexity > ComplexityCeiling then
      Plan(ConstraintsExceeded, 0, t.time, t.complexity, t.skills)
    else
      Plan(Feasible, t.value, t.time, t.complexity, t.skills)
  }

  /**
   The deterministic half of `solve_challenge_1`: the closure of the target,
   judged against the ceilings. The plan is feasible exactly when the closure
   keeps within both ceilings; a feasible plan carries the closure's value, a
   failed one value 0, and both carry the closure's time, complexity and skills.
   */
  function SolvePath(c: Catalog, rank: map<string, nat>, target: string): (p: Plan)
    requires UniqueIds(c) && ValidRank(c, rank)
    ensures var t := Closure(c, rank, target);
            p.status == Feasible <==> t.time <= TimeCeiling && t.complexity <= ComplexityCeiling
    ensures p.status == Feasible ==> p.value == Closure(c, rank, target).value
    ensures p.status == ConstraintsExceeded ==> p.value == 0
    ensures p.time == Closure(c, rank, target).time && p.complexity == Closure(c, rank, target).complexity
    ensures p.path == Closure(c, rank, target).skills
    ensures p.status == Feasible ==> p.time <= TimeCeiling && p.complexity <= ComplexityCeiling
  {
    Decide(Closure(c, rank, target))
  }

  // ---------------------------------------------------------------------------
  // Consequences and the shipped data
  // ---------------------------------------------------------------------------

  /** A known skill without prerequisites yields its own attributes and the set of itself alone. */
  lemma ClosureBase(c: Catalog, rank: map<string, nat>, id: string)
    requires UniqueIds(c) && ValidRank(c, rank) && id in Keys(c) && |PrereqsOf(c, id)| == 0
    ensures var s := SkillOf(c, id);
            Closure(c, rank, id) == Totals(s.value, s.time, s.complexity, {id})
  {
    ClosureUnion(c, rank, id);
    assert Closure(c, rank, id).skills == {id};
    SumOverSingleton(c, id, Value);
    SumOverSingleton(c, id, Time);
    SumOverSingleton(c, id, Complexity);
  }

  /** The totals over a two-element set of known ids are the sums of the two records. */
  lemma SumOverPair(c: Catalog, s: set<string>, x: string, a: Attr)
    requires UniqueIds(c) && x in Keys(c) && x !in s
    ensures SumOver(c, s + {x}, a) == SumOver(c, s, a) + Attribute(SkillOf(c, x), a)
  {
    SumOverUnion(c, s, {x}, a);
    SumOverSingleton(c, x, a);
  }

  /** A chain of known skills `a <- b`: the closure of `b` is the pair, each attribute summed once. */
  lemma ClosureOfChain(c: Catalog, rank: map<string, nat>, a: string, b: string)
    requires UniqueIds(c) && ValidRank(c, rank) && a in Keys(c) && b in Keys(c) && a != b
    requires PrereqsOf(c, a) == [] && PrereqsOf(c, b) == [a]
    ensures Closure(c, rank, b).skills == {a, b}
    ensures Closure(c, rank, b) == Totals(SkillOf(c, a).value + SkillOf(c, b).value,
                                          SkillOf(c, a).time + SkillOf(c, b).time,
                                          SkillOf(c, a).complexity + SkillOf(c, b).complexity,
                                          {a, b})
  {
    ClosureBase(c, rank, a);
    ClosureUnion(c, rank, b);
    assert Closure(c, rank, b).skills == {a} + {b};
    SumOverSingleton(c, a, Value);
    SumOverSingleton(c, a, Time);
    SumOverSingleton(c, a, Complexity);
    SumOverPair(c, {a}, b, Value);
    SumOverPair(c, {a}, b, Time);
    SumOverPair(c, {a}, b, Complexity);
  }

  /** A skill `d` whose only prerequisite `p` has a known closure `s` adds its own record on top. */
  lemma ClosureOnTop(c: Catalog, rank: map<string, nat>, p: string, d: string, ps: seq<string>)
    requires UniqueIds(c) && ValidRank(c, rank) && d in Keys(c)
    requires PrereqsOf(c, d) == ps && |ps| > 0 && d !in Closure(c, rank, p).skills
    requires forall q :: q in ps ==> Closure(c, rank, q).skills <= Closure(c, rank, p).skills
    requires p in ps
    ensures Closure(c, rank, d).skills == Closure(c, rank, p).skills + {d}
    ensures Closure(c, rank, d).time == Closure(c, rank, p).time + SkillOf(c, d).time
    ensures Closure(c, rank, d).value == Closure(c, rank, p).value + SkillOf(c, d).value
    ensures Closure(c, rank, d).complexity == Closure(c, rank, p).complexity + SkillOf(c, d).complexity
  {
    var sp := Closure(c, rank, p).skills;
    ClosureUnion(c, rank, d);
    assert Closure(c, rank, d).skills == sp + {d};
    SumOverPair(c, sp, d, Value);
    SumOverPair(c, sp, d, Time);
    SumOverPair(c, sp, d, Complexity);
  }

  predicate MasterWellFormedFacts() {
    UniqueIds(Master) && ValidRank(Master, MasterRank)
  }

  lemma MasterFacts()
    ensures MasterWellFormedFacts()
    ensures "S1" in Keys(Master) && "S3" in Keys(Master) && "S4" in Keys(Master) && "S6" in Keys(Master)
  {
    MasterWellFormed();
    MasterKeysAre();
  }

  lemma MasterChain()
    ensures SkillOf(Master, "S1") == Skill(80, 3, 4, [])
    ensures SkillOf(Master, "S3") == Skill(100, 7, 8, ["S1"])
    ensures SkillOf(Master, "S4") == Skill(120, 8, 9, ["S1", "S3"])
    ensures SkillOf(Master, "S6") == Skill(150, 10, 10, ["S4"])
  {
    MasterRecord(0);
    MasterRecord(2);
    MasterRecord(3);
    MasterRecord(5);
  }

  /** S3 requires only S1: value 3 + 7, time 80 + 100, complexity 4 + 8. */
  lemma ClosureOfS3()
    ensures MasterWellFormedFacts() && Closure(Master, MasterRank, "S3") == Totals(10, 180, 12, {"S1", "S3"})
  {
    MasterFacts();
    MasterChain();
    ClosureOfChain(Master, MasterRank, "S1", "S3");
  }

  /** The closure of S4 in any catalog that carries the shipped records of S1, S3 and S4. */
  lemma ClosureOfS4(c: Catalog, rank: map<string, nat>)
    requires UniqueIds(c) && ValidRank(c, rank)
    requires "S1" in Keys(c) && "S3" in Keys(c) && "S4" in Keys(c)
    requires SkillOf(c, "S1") == Skill(80, 3, 4, [])
    requires SkillOf(c, "S3") == Skill(100, 7, 8, ["S1"])
    requires SkillOf(c, "S4") == Skill(120, 8, 9, ["S1", "S3"])
    ensures Closure(c, rank, "S4") == Totals(18, 300, 21, {"S1", "S3", "S4"})
  {
    ClosureOfChain(c, rank, "S1", "S3");
    ClosureBase(c, rank, "S1");
    ClosureOnTop(c, rank, "S3", "S4", ["S1", "S3"]);
    assert {"S1", "S3"} + {"S4"} == {"S1", "S3", "S4"};
  }

  /** The closure of S6 in any catalog that carries the shipped records of S1, S3, S4 and S6. */
  lemma ClosureOfS6(c: Catalog, rank: map<string, nat>)
    requires UniqueIds(c) && ValidRank(c, rank)
    requires "S1" in Keys(c) && "S3" in Keys(c) && "S4" in Keys(c) && "S6" in Keys(c)
    requires SkillOf(c, "S1") == Skill(80, 3, 4, [])
    requires SkillOf(c, "S3") == Skill(100, 7, 8, ["S1"])
    requires SkillOf(c, "S4") == Skill(120, 8, 9, ["S1", "S3"])
    requires SkillOf(c, "S6") == Skill(150, 10, 10, ["S4"])
    ensures Closure(c, rank, "S6") == Totals(28, 450, 31, {"S1", "S3", "S4", "S6"})
  {
    ClosureOfS4(c, rank);
    ClosureOnTop(c, rank, "S4", "S6", ["S4"]);
    assert {"S1", "S3", "S4"} + {"S6"} == {"S1", "S3", "S4", "S6"};
  }

  /**
   The shipped target S6 needs S4, which needs S1 and S3: the closure takes 450
   hours against a ceiling of 350 and complexity 31 against 30, so the plan fails
   with value 0.
   */
  lemma MasterPlanFails()
    ensures MasterWellFormedFacts()
    ensures Closure(Master, MasterRank, Target) == Totals(28, 450, 31, {"S1", "S3", "S4", "S6"})
    ensures SolvePath(Master, MasterRank, Target) == Plan(ConstraintsExceeded, 0, 450, 31, {"S1", "S3", "S4", "S6"})
  {
    MasterFacts();
    MasterChain();
    ClosureOfS6(Master, MasterRank);
  }
}
