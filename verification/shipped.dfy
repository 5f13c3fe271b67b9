/**
 The shipped data: the catalog of twelve skills, the critical skills whose
 acquisition orders are ranked, and the facts about them that the planners rely on.
 */
module Shipped {
  import opened Wrappers
  import opened Seqs
  import opened Registry

  /** The shipped catalog, in insertion order. */
  const Master: Catalog := [
    Entry("S1", Skill(80, 3, 4, [])),
    Entry("S2", Skill(60, 4, 3, [])),
    Entry("S3", Skill(100, 7, 8, ["S1"])),
    Entry("S4", Skill(120, 8, 9, ["S1", "S3"])),
    Entry("S5", Skill(40, 6, 5, ["S2"])),
    Entry("S6", Skill(150, 10, 10, ["S4"])),
    Entry("S7", Skill(70, 5, 7, [])),
    Entry("S8", Skill(90, 6, 6, ["S1"])),
    Entry("S9", Skill(110, 9, 8, ["S7", "S8"])),
    Entry("H10", Skill(60, 5, 6, [])),
    Entry("H11", Skill(90, 8, 8, ["S4"])),
    Entry("H12", Skill(30, 3, 3, []))
  ]

  /** The critical skills whose acquisition orders are ranked. */
  const Critical: seq<string> := ["S3", "S5", "S7", "S8", "S9"]

  /** A rank witnessing that the shipped prerequisite relation is acyclic. */
  const MasterRank: map<string, nat> := map[
    "S1" := 0, "S2" := 0, "S7" := 0, "H10" := 0, "H12" := 0,
    "S3" := 1, "S5" := 1, "S8" := 1,
    "S4" := 2, "S9" := 2,
    "S6" := 3, "H11" := 3
  ]

  const MasterKeys: set<string> := {"S1", "S2", "S3", "S4", "S5", "S6", "S7", "S8", "S9", "H10", "H11", "H12"}

  // The facts about the shipped data are checked a few entries at a time.

  lemma MasterKeysTail()
    ensures KeysFrom(Master, 6) == {"S7", "S8", "S9", "H10", "H11", "H12"}
  {
    assert KeysFrom(Master, 12) == {};
    assert KeysFrom(Master, 11) == {"H12"};
    assert KeysFrom(Master, 10) == {"H11", "H12"};
    assert KeysFrom(Master, 9) == {"H10", "H11", "H12"};
    assert KeysFrom(Master, 8) == {"S9", "H10", "H11", "H12"};
    assert KeysFrom(Master, 7) == {"S8", "S9", "H10", "H11", "H12"};
  }

  lemma MasterKeysScan()
    ensures KeysFrom(Master, 0) == MasterKeys
  {
    MasterKeysTail();
    assert KeysFrom(Master, 5) == {"S6", "S7", "S8", "S9", "H10", "H11", "H12"};
    assert KeysFrom(Master, 4) == {"S5", "S6", "S7", "S8", "S9", "H10", "H11", "H12"};
    assert KeysFrom(Master, 3) == {"S4", "S5", "S6", "S7", "S8", "S9", "H10", "H11", "H12"};
    assert KeysFrom(Master, 2) == {"S3", "S4", "S5", "S6", "S7", "S8", "S9", "H10", "H11", "H12"};
    assert KeysFrom(Master, 1) == {"S2", "S3", "S4", "S5", "S6", "S7", "S8", "S9", "H10", "H11", "H12"};
  }

  /** No shipped id is the empty string. */
  lemma MasterKeysNamed()
    ensures "" !in MasterKeys
  {
  }

  lemma MasterKeysAre()
    ensures Keys(Master) == MasterKeys
  {
    KeysByScan(Master);
    MasterKeysScan();
  }

  // Each shipped entry is checked by a lemma of its own, which keeps every proof small.

  lemma MasterEntry0()
    ensures EntryRanked(Master[0], MasterKeys, MasterRank)
  {
  }

  lemma MasterEntry1()
    ensures EntryRanked(Master[1], MasterKeys, MasterRank)
  {
  }

  lemma MasterEntry2()
    ensures EntryRanked(Master[2], MasterKeys, MasterRank)
  {
  }

  lemma MasterEntry3()
    ensures EntryRanked(Master[3], MasterKeys, MasterRank)
  {
  }

  lemma MasterEntry4()
    ensures EntryRanked(Master[4], MasterKeys, MasterRank)
  {
  }

  lemma MasterEntry5()
    ensures EntryRanked(Master[5], MasterKeys, MasterRank)
  {
  }

  lemma MasterEntry6()
    ensures EntryRanked(Master[6], MasterKeys, MasterRank)
  {
  }

  lemma MasterEntry7()
    ensures EntryRanked(Master[7], MasterKeys, MasterRank)
  {
  }

  lemma MasterEntry8()
    ensures EntryRanked(Master[8], MasterKeys, MasterRank)
  {
  }

  lemma MasterEntry9()
    ensures EntryRanked(Master[9], MasterKeys, MasterRank)
  {
  }

  lemma MasterEntry10()
    ensures EntryRanked(Master[10], MasterKeys, MasterRank)
  {
  }

  lemma MasterEntry11()
    ensures EntryRanked(Master[11], MasterKeys, MasterRank)
  {
  }

  /** Every shipped entry: a ranked id, positive attributes, known and lower-ranked prerequisites. */
  lemma MasterEntries()
    ensures forall e :: e in Master ==> EntryRanked(e, MasterKeys, MasterRank)
  {
    forall i | 0 <= i < |Master| ensures EntryRanked(Master[i], MasterKeys, MasterRank) {
      if i == 0 { MasterEntry0(); }
      else if i == 1 { MasterEntry1(); }
      else if i == 2 { MasterEntry2(); }
      else if i == 3 { MasterEntry3(); }
      else if i == 4 { MasterEntry4(); }
      else if i == 5 { MasterEntry5(); }
      else if i == 6 { MasterEntry6(); }
      else if i == 7 { MasterEntry7(); }
      else if i == 8 { MasterEntry8(); }
      else if i == 9 { MasterEntry9(); }
      else if i == 10 { MasterEntry10(); }
      else { MasterEntry11(); }
    }
  }

  lemma MasterUniqueHead()
    ensures forall j, k :: 0 <= j < 3 && j < k < |Master| ==> Master[j].id != Master[k].id
  {
  }

  lemma MasterUniqueMiddle()
    ensures forall j, k :: 3 <= j < 6 && j < k < |Master| ==> Master[j].id != Master[k].id
  {
  }

  lemma MasterUniqueTail()
    ensures forall j, k :: 6 <= j < k < |Master| ==> Master[j].id != Master[k].id
  {
  }

  lemma MasterUnique()
    ensures UniqueIds(Master)
  {
    MasterUniqueHead();
    MasterUniqueMiddle();
    MasterUniqueTail();
  }

  /** The record found under the id of the `i`-th shipped entry is that entry's record. */
  lemma MasterRecord(i: nat)
    requires i < |Master|
    ensures Master[i].id in Keys(Master)
    ensures Lookup(Master, Master[i].id) == Some(Master[i].skill)
    ensures SkillOf(Master, Master[i].id) == Master[i].skill
  {
    MasterUnique();
    LookupAt(Master, i);
  }

  /** The shipped data: unique ids, no orphan prerequisite, positive attributes, known critical ids, a valid rank. */
  lemma MasterWellFormed()
    ensures UniqueIds(Master)
    ensures NoOrphans(Master)
    ensures PositiveAttributes(Master)
    ensures forall x :: x in Critical ==> x in Keys(Master)
    ensures ValidRank(Master, MasterRank)
  {
    MasterUnique();
    MasterKeysAre();
    MasterEntries();
  }

  /** The shipped base skills, in insertion order. */
  lemma MasterBaseSkills()
    ensures BaseSkills(Master) == ["S1", "S2", "S7", "H10", "H12"]
  {
  }

  /** `get_skill_data`: a known id yields its record, an unknown one yields None. */
  lemma MasterLookup()
    ensures Lookup(Master, "S3") == Some(Skill(100, 7, 8, ["S1"]))
    ensures Lookup(Master, "S99") == None
  {
  }
}
