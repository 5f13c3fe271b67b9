/**
 The skill registry: an immutable catalog, in insertion order, from skill id to
 its acquisition time, value, complexity and list of prerequisite ids, together
 with the sums, lookups and well-formedness conditions the planners share.
 */
module Registry {
  import opened Wrappers
  import opened Seqs

  /**
   One registry record. The display name and usage tag carry no logic and are
   not modelled. The attributes are non-negative: a negative time, value or
   complexity, which Python would accept unchecked, is not representable.
   */
  datatype Skill = Skill(time: nat, value: nat, complexity: nat, prereqs: seq<string>)

  /** One key/record pair of the ordered catalog. */
  datatype Entry = Entry(id: string, skill: Skill)

  /** The catalog, in the insertion order that every traversal and tie-break follows. */
  type Catalog = seq<Entry>

  /** The three numeric attributes that the planners add up. */
  datatype Attr = Time | Value | Complexity

  function Attribute(s: Skill, a: Attr): nat {
    match a
    case Time => s.time
    case Value => s.value
    case Complexity => s.complexity
  }

  /** The ids of the catalog, in insertion order. */
  function Ids(c: Catalog): (ids: seq<string>)
    ensures |ids| == |c|
    ensures forall i :: 0 <= i < |c| ==> ids[i] == c[i].id
  {
    seq(|c|, i requires 0 <= i < |c| => c[i].id)
  }

  /** The ids of the catalog, as a set (Python's `set(habilidades.keys())`). */
  function Keys(c: Catalog): set<string> {
    set e | e in c :: e.id
  }

  /** A dictionary never holds the same key twice. */
  predicate UniqueIds(c: Catalog) {
    forall i, j :: 0 <= i < j < |c| ==> c[i].id != c[j].id
  }

  /** Scan for `id` from position `i` on: the first matching record, if any. */
  function LookupFrom(c: Catalog, id: string, i: nat): (r: Option<Skill>)
    ensures r.None? <==> forall j :: i <= j < |c| ==> c[j].id != id
    ensures r.Some? ==> exists j :: i <= j < |c| && c[j] == Entry(id, r.value)
    decreases |c| - i
  {
    if i >= |c| then None
    else if c[i].id == id then Some(c[i].skill)
    else LookupFrom(c, id, i + 1)
  }

  /** Dictionary lookup (`habilidades.get(id)`): the record stored under `id`, or None for an unknown id. */
  function Lookup(c: Catalog, id: string): (r: Option<Skill>)
    ensures r.None? <==> id !in Keys(c)
    ensures r.Some? ==> Entry(id, r.value) in c
  {
    LookupFrom(c, id, 0)
  }

  /** In a catalog with unique ids, looking up the id of an entry finds that entry's record. */
  lemma LookupAt(c: Catalog, i: nat)
    requires UniqueIds(c) && i < |c|
    ensures Lookup(c, c[i].id) == Some(c[i].skill)
  {
    var r := LookupFrom(c, c[i].id, 0);
    var j :| 0 <= j < |c| && c[j] == Entry(c[i].id, r.value);
  }

  /** In a catalog with unique ids, looking up the id of any entry finds that entry's record. */
  lemma LookupEntry(c: Catalog, e: Entry)
    requires UniqueIds(c) && e in c
    ensures Lookup(c, e.id) == Some(e.skill)
  {
    var i :| 0 <= i < |c| && c[i] == e;
    LookupAt(c, i);
  }

  /** The record of a known id, as a total helper (an empty record for an unknown id). */
  function SkillOf(c: Catalog, id: string): Skill {
    match Lookup(c, id)
    case Some(s) => s
    case None => Skill(0, 0, 0, [])
  }

  /** The prerequisite list of `id`, empty for an unknown id (Python's `graph.get(node, [])`). */
  function PrereqsOf(c: Catalog, id: string): seq<string> {
    SkillOf(c, id).prereqs
  }

  /** Sum of an attribute along a sequence of ids, counting repeats, unknown ids adding 0. */
  function Total(c: Catalog, ids: seq<string>, a: Attr): nat {
    if |ids| == 0 then 0 else Attribute(SkillOf(c, ids[0]), a) + Total(c, ids[1..], a)
  }

  /** Sum of an attribute over the entries from position `i` on whose id lies in `s`. */
  function SumFrom(c: Catalog, s: set<string>, a: Attr, i: nat): nat
    decreases |c| - i
  {
    if i >= |c| then 0
    else (if c[i].id in s then Attribute(c[i].skill, a) else 0) + SumFrom(c, s, a, i + 1)
  }

  /** Sum of an attribute over the catalog entries whose id lies in `s`: each distinct id once. */
  function SumOver(c: Catalog, s: set<string>, a: Attr): nat {
    SumFrom(c, s, a, 0)
  }

  lemma {:induction false} TotalAppend(c: Catalog, xs: seq<string>, ys: seq<string>, a: Attr)
    ensures Total(c, xs + ys, a) == Total(c, xs, a) + Total(c, ys, a)
  {
    if |xs| > 0 {
      assert (xs + ys)[0] == xs[0];
      assert (xs + ys)[1..] == xs[1..] + ys;
      TotalAppend(c, xs[1..], ys, a);
    } else {
      assert xs + ys == ys;
    }
  }

  lemma {:induction false} SumFromUnion(c: Catalog, s: set<string>, t: set<string>, a: Attr, i: nat)
    requires s !! t
    ensures SumFrom(c, s + t, a, i) == SumFrom(c, s, a, i) + SumFrom(c, t, a, i)
    decreases |c| - i
  {
    if i < |c| {
      SumFromUnion(c, s, t, a, i + 1);
    }
  }

  /** Summing over two disjoint sets is summing over their union: nothing is counted twice. */
  lemma SumOverUnion(c: Catalog, s: set<string>, t: set<string>, a: Attr)
    requires s !! t
    ensures SumOver(c, s + t, a) == SumOver(c, s, a) + SumOver(c, t, a)
  {
    SumFromUnion(c, s, t, a, 0);
  }

  lemma {:induction false} SumFromSame(c: Catalog, s: set<string>, t: set<string>, a: Attr, i: nat)
    requires forall j :: i <= j < |c| ==> (c[j].id in s <==> c[j].id in t)
    ensures SumFrom(c, s, a, i) == SumFrom(c, t, a, i)
    decreases |c| - i
  {
    if i < |c| {
      SumFromSame(c, s, t, a, i + 1);
    }
  }

  /** Only the members of `s` that are keys matter to the sum; the empty set sums to 0. */
  lemma SumOverKeys(c: Catalog, s: set<string>, t: set<string>, a: Attr)
    requires s * Keys(c) == t * Keys(c)
    ensures SumOver(c, s, a) == SumOver(c, t, a)
  {
    forall j | 0 <= j < |c| ensures c[j].id in s <==> c[j].id in t {
      assert c[j].id in Keys(c);
      assert (c[j].id in s * Keys(c)) == (c[j].id in t * Keys(c));
    }
    SumFromSame(c, s, t, a, 0);
  }

  lemma {:induction false} SumFromEmpty(c: Catalog, a: Attr, i: nat)
    ensures SumFrom(c, {}, a, i) == 0
    decreases |c| - i
  {
    if i < |c| {
      SumFromEmpty(c, a, i + 1);
    }
  }

  lemma {:induction false} SumFromSingleton(c: Catalog, id: string, a: Attr, i: nat, k: nat)
    requires UniqueIds(c) && i <= k < |c| && c[k].id == id
    ensures SumFrom(c, {id}, a, i) == Attribute(c[k].skill, a)
    decreases |c| - i
  {
    if i < k {
      SumFromSingleton(c, id, a, i + 1, k);
    } else {
      SumFromSame(c, {id}, {}, a, i + 1);
      SumFromEmpty(c, a, i + 1);
    }
  }

  /** With unique ids, the sum over a single known id is that skill's own attribute. */
  lemma SumOverSingleton(c: Catalog, id: string, a: Attr)
    requires UniqueIds(c) && id in Keys(c)
    ensures SumOver(c, {id}, a) == Attribute(SkillOf(c, id), a)
  {
    var e :| e in c && e.id == id;
    var k :| 0 <= k < |c| && c[k] == e;
    LookupAt(c, k);
    SumFromSingleton(c, id, a, 0, k);
  }

  /** `x` appears in the prerequisite list of some entry. */
  predicate Required(c: Catalog, x: string) {
    exists e :: e in c && x in e.skill.prereqs
  }

  /** Every prerequisite id named anywhere is itself a key. */
  predicate NoOrphans(c: Catalog) {
    forall e, p :: e in c && p in e.skill.prereqs ==> p in Keys(c)
  }

  /** Every attribute of every skill is a positive integer. */
  predicate PositiveAttributes(c: Catalog) {
    forall e :: e in c ==> e.skill.time > 0 && e.skill.value > 0 && e.skill.complexity > 0
  }

  /**
   An explicit acyclicity witness: a rank for every key that strictly decreases
   from a skill to each of its known prerequisites.
   */
  predicate ValidRank(c: Catalog, rank: map<string, nat>) {
    && (forall e :: e in c ==> e.id in rank)
    && (forall e, p :: e in c && p in e.skill.prereqs && p in Keys(c) ==>
          p in rank && rank[p] < rank[e.id])
  }

  /** `id` names a catalog entry whose prerequisite list is empty. */
  predicate IsBase(c: Catalog, id: string) {
    exists e :: e in c && e.id == id && |e.skill.prereqs| == 0
  }

  /** The ids from position `i` on whose prerequisite list is empty, in order. */
  function BaseFrom(c: Catalog, i: nat): (r: seq<string>)
    requires i <= |c|
    ensures IsSubseq(r, Ids(c)[i..])
    ensures forall x :: x in r <==> exists j :: i <= j < |c| && c[j].id == x && |c[j].skill.prereqs| == 0
    decreases |c| - i
  {
    if i >= |c| then
      assert Ids(c)[i..] == [];
      []
    else
      var rest := BaseFrom(c, i + 1);
      assert Ids(c)[i..][1..] == Ids(c)[i + 1..];
      if |c[i].skill.prereqs| == 0 then [c[i].id] + rest
      else
        SubseqSkipHead(rest, Ids(c)[i..]);
        rest
  }

  /** The base skills (`get_base_skills`): ids with no prerequisites, in insertion order. */
  function BaseSkills(c: Catalog): (r: seq<string>)
    ensures IsSubseq(r, Ids(c))
    ensures forall x :: x in r <==> IsBase(c, x)
  {
    var r := BaseFrom(c, 0);
    assert Ids(c)[0..] == Ids(c);
    assert forall x :: x in r <==> IsBase(c, x) by {
      forall x ensures x in r <==> IsBase(c, x) {
        if IsBase(c, x) {
          var e :| e in c && e.id == x && |e.skill.prereqs| == 0;
          var j :| 0 <= j < |c| && c[j] == e;
        }
        if x in r {
          var j :| 0 <= j < |c| && c[j].id == x && |c[j].skill.prereqs| == 0;
          assert c[j] in c;
        }
      }
    }
    r
  }

  /** The ids of the entries from position `i` on, collected by a scan. */
  function KeysFrom(c: Catalog, i: nat): set<string>
    decreases |c| - i
  {
    if i >= |c| then {} else {c[i].id} + KeysFrom(c, i + 1)
  }

  lemma {:induction false} KeysFromMembers(c: Catalog, i: nat)
    ensures forall x :: x in KeysFrom(c, i) <==> exists j :: i <= j < |c| && c[j].id == x
    decreases |c| - i
  {
    if i < |c| {
      KeysFromMembers(c, i + 1);
    }
  }

  /** The key set is what a scan of the entries collects. */
  lemma KeysByScan(c: Catalog)
    ensures Keys(c) == KeysFrom(c, 0)
  {
    KeysFromMembers(c, 0);
    forall x | x in Keys(c) ensures x in KeysFrom(c, 0) {
      var e :| e in c && e.id == x;
      var j :| 0 <= j < |c| && c[j] == e;
    }
    forall x | x in KeysFrom(c, 0) ensures x in Keys(c) {
      var j :| 0 <= j < |c| && c[j].id == x;
      assert c[j] in c;
    }
  }

  /** Entry `e` has positive attributes, a rank, and only known prerequisites of lower rank. */
  predicate EntryRanked(e: Entry, keys: set<string>, rank: map<string, nat>) {
    && e.id in rank
    && e.skill.time > 0 && e.skill.value > 0 && e.skill.complexity > 0
    && forall p :: p in e.skill.prereqs ==> p in keys && p in rank && rank[p] < rank[e.id]
  }
}
