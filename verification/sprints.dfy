/**
 The fourth challenge: the catalog, listed as (id, complexity) rows in
 insertion order, is merge-sorted by complexity and cut into two sprints, the
 six easiest skills first and the rest after.
 */
module Sprints {
  import opened Registry
  import opened Sorting
  import opened Shipped

  /** One row of the sorted dataset; the display name rides along in the source and is not modelled. */
  datatype Task = Task(id: string, complexity: nat)

  /** The number of skills in the first sprint. */
  const SprintSize: nat := 6

  /** The rows of the dataset, one per catalog entry, in insertion order. */
  function Dataset(c: Catalog): (d: seq<Task>)
    ensures |d| == |c|
    ensures forall i :: 0 <= i < |c| ==> d[i].id == c[i].id && d[i].complexity == c[i].skill.complexity
  {
    seq(|c|, i requires 0 <= i < |c| => Task(c[i].id, c[i].skill.complexity))
  }

  /** The sort key: a row's complexity. */
  function ByComplexity(t: Task): real {
    t.complexity as real
  }

  /** The outcome: the whole sorted list and its two sprints. */
  datatype Plan = Plan(ordered: seq<Task>, sprintA: seq<Task>, sprintB: seq<Task>)

  /** `solve_challenge_4` without its timings: merge-sort the rows by complexity, then split after six. */
  function PlanSprints(c: Catalog): Plan {
    var ordered := MergeSort(Dataset(c), ByComplexity);
    var cut := if |ordered| < SprintSize then |ordered| else SprintSize;
    Plan(ordered, ordered[..cut], ordered[cut..])
  }

  /**
   The sprints together are the sorted list, the first holds `min(6, n)` skills,
   the list is a rearrangement of the catalog's rows sorted by complexity with
   ties left in insertion order, and no skill of the first sprint is harder
   than any skill of the second.
   */
  lemma PlanSprintsMeaning(c: Catalog)
    ensures PlanSprints(c).sprintA + PlanSprints(c).sprintB == PlanSprints(c).ordered
    ensures |PlanSprints(c).sprintA| == if |c| < SprintSize then |c| else SprintSize
    ensures |PlanSprints(c).ordered| == |c|
    ensures multiset(PlanSprints(c).ordered) == multiset(Dataset(c))
    ensures SortedBy(PlanSprints(c).ordered, ByComplexity)
    ensures forall k :: FilterKey(PlanSprints(c).ordered, ByComplexity, k) == FilterKey(Dataset(c), ByComplexity, k)
    ensures forall x, y :: x in PlanSprints(c).sprintA && y in PlanSprints(c).sprintB ==> x.complexity <= y.complexity
  {
    var o := MergeSort(Dataset(c), ByComplexity);
    var cut := if |o| < SprintSize then |o| else SprintSize;
    assert PlanSprints(c) == Plan(o, o[..cut], o[cut..]);
    assert o[..cut] + o[cut..] == o;
    SplitOrdered(o, cut);
  }

  /** Cutting a list sorted by complexity leaves nothing in the front part harder than anything behind. */
  lemma SplitOrdered(s: seq<Task>, cut: nat)
    requires SortedBy(s, ByComplexity) && cut <= |s|
    ensures forall x, y :: x in s[..cut] && y in s[cut..] ==> x.complexity <= y.complexity
  {
    SortedPairwise(s, ByComplexity);
    forall x, y | x in s[..cut] && y in s[cut..] ensures x.complexity <= y.complexity {
      var i :| 0 <= i < cut && s[..cut][i] == x;
      var j :| 0 <= j < |s| - cut && s[cut..][j] == y;
      assert s[i] == x && s[cut + j] == y;
      assert ByComplexity(s[i]) <= ByComplexity(s[cut + j]);
    }
  }

  /**
   Python's built-in `sorted(dataset, key=...)` is stable too, so any sorted,
   tie-preserving arrangement of the rows (the built-in's result among them) is
   exactly the merge-sorted list.
   */
  lemma NativeSortAgrees(c: Catalog, native: seq<Task>)
    requires SortedBy(native, ByComplexity)
    requires forall k :: FilterKey(native, ByComplexity, k) == FilterKey(Dataset(c), ByComplexity, k)
    ensures native == PlanSprints(c).ordered
  {
    StableSortIsMergeSort(Dataset(c), native, ByComplexity);
  }

  /** Every catalog row ends up in one of the two sprints. */
  lemma SprintsCoverCatalog(c: Catalog, i: nat)
    requires i < |c|
    ensures Task(c[i].id, c[i].skill.complexity) in PlanSprints(c).sprintA + PlanSprints(c).sprintB
  {
    PlanSprintsMeaning(c);
    var d := Dataset(c);
    assert d[i] == Task(c[i].id, c[i].skill.complexity);
    assert d[i] in multiset(d);
  }

  /** The twelve shipped skills split six and six. */
  lemma ShippedSprints()
    ensures |PlanSprints(Master).sprintA| == 6 && |PlanSprints(Master).sprintB| == 6
  {
    PlanSprintsMeaning(Master);
  }
}
