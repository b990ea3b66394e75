/** Runs of maps and unmaps next to a directory that shares entries with the manager's. */
module SharedRuns {
  import opened Paging
  import opened AddressSpace
  import opened SharedSpaces
  import opened BlockSpec
  import opened SpaceRuns

  /** Directory frame f was filled from dir and stands beside it: a held block that is no table. */
  ghost predicate Sharer(s: Space, dir: int, f: int) {
    && IsFrame(dir) && IsFrame(f) && f in s.used && f != 0
    && !IsStructure(s.ram, dir, f) && SharesEntries(s.ram, dir, f)
  }

  /** The calls that leave every shared entry as it is: a map whose table is there, an unmap that
      leaves its table a present entry, and any call outside the shared entries. */
  ghost predicate LeavesEntries(s: Space, dir: int, op: SpaceRuns.Op)
    requires IsFrame(dir) && op.page < 0xFFC00
  {
    || !SharedIndex(op.page / 1024)
    || (op.Map? && HasTableFor(s.ram, dir, op.page))
    || (op.Unmap? && !Empties(s.ram, dir, op.page))
  }

  /** A map keeps the entries shared exactly when its table is there, or its entry is not shared. */
  lemma MapKeepsSharingIff(ram: Ram, dir: int, used: set<nat>, f: int, p: nat, phys: Word, t: nat)
    requires GoodSpace(ram, dir, used) && SharesEntries(ram, dir, f) && f in used && !IsStructure(ram, dir, f)
    requires p < 0xFFC00 && phys % 4096 == 0
    requires IsFrame(t) && (HasTableFor(ram, dir, p) || (t != 0 && t !in used))
    ensures SharesEntries(MapRam(ram, dir, p, phys, t), dir, f) <==> HasTableFor(ram, dir, p) || !SharedIndex(p / 1024)
  {
    hide Present, FrameOf, WriteBit;
    TableEntry(t);
    NullEntry();
    var ram' := MapRam(ram, dir, p, phys, t);
    BystanderAfterMap(ram, dir, used, p, phys, t, f);
    if HasTableFor(ram, dir, p) {
      EditKeepsShape(ram, dir, used, p, Or3(phys));
      assert ram'[dir] == ram[dir];
    } else {
      assert ram'[dir] == ram[dir][p / 1024 := t * 4096 + 3];
      assert ram'[f][p / 1024] == ram[f][p / 1024];
    }
  }

  /** An unmap keeps the entries shared exactly when it frees no table under one of them. */
  lemma UnmapKeepsSharingIff(ram: Ram, dir: int, used: set<nat>, f: int, p: nat)
    requires GoodSpace(ram, dir, used) && SharesEntries(ram, dir, f) && f in used && !IsStructure(ram, dir, f)
    requires p < 0xFFC00
    ensures SharesEntries(UnmapRam(ram, dir, p), dir, f) <==> !Empties(ram, dir, p) || !SharedIndex(p / 1024)
  {
    hide Present, FrameOf, WriteBit;
    NullEntry();
    var ram' := UnmapRam(ram, dir, p);
    BystanderAfterUnmap(ram, dir, used, p, f);
    if HasTableFor(ram, dir, p) {
      EditKeepsShape(ram, dir, used, p, 0);
      if Empties(ram, dir, p) {
        assert ram'[dir] == ram[dir][p / 1024 := 0];
        assert ram'[f][p / 1024] == ram[f][p / 1024];
      }
    }
  }

  /** One allowed call: the sharer stays beside the space, and stays a sharer exactly when the call
      leaves the shared entries alone. */
  lemma StepKeepsSharerIff(s: Space, dir: int, bits: nat, op: SpaceRuns.Op, f: int)
    requires IsFrame(dir) && bits <= 0x100000 && GoodSpace(s.ram, dir, s.used) && Allowed(s, dir, bits, op)
    requires Sharer(s, dir, f)
    ensures Sharer(After(s, dir, bits, op), dir, f) <==> LeavesEntries(s, dir, op)
  {
    hide GoodSpace, MapRam, UnmapRam, IsStructure, SharesEntries, Empties;
    LowestClearIsLowest(s.used, 0, bits);
    match op
    case Map(p, phys) =>
      var t := LowestClear(s.used, 0, bits);
      BystanderAfterMap(s.ram, dir, s.used, p, phys, t, f);
      MapKeepsSharingIff(s.ram, dir, s.used, f, p, phys, t);
    case Unmap(p) =>
      BystanderAfterUnmap(s.ram, dir, s.used, p, f);
      UnmapKeepsSharingIff(s.ram, dir, s.used, f, p);
  }

  ghost predicate LeavesEntriesRun(s: Space, dir: int, bits: nat, ops: seq<SpaceRuns.Op>)
    requires IsFrame(dir) && bits <= 0x100000 && AllowedRun(s, dir, bits, ops)
    decreases |ops|
  {
    ops == [] || (LeavesEntries(s, dir, ops[0]) && LeavesEntriesRun(After(s, dir, bits, ops[0]), dir, bits, ops[1..]))
  }

  /** Over any run of calls that leave the shared entries alone, both directories go on translating
      every page under them alike. */
  lemma {:induction false} RunSeenAlike(s: Space, dir: int, bits: nat, ops: seq<SpaceRuns.Op>, f: int)
    requires IsFrame(dir) && bits <= 0x100000 && GoodSpace(s.ram, dir, s.used) && AllowedRun(s, dir, bits, ops)
    requires Sharer(s, dir, f)
    requires LeavesEntriesRun(s, dir, bits, ops)
    ensures var s' := AfterRun(s, dir, bits, ops);
      && GoodSpace(s'.ram, dir, s'.used) && Sharer(s', dir, f) && SeenAlike(s'.ram, dir, f)
    decreases |ops|
  {
    hide GoodSpace, Allowed, After, LeavesEntries, SeenAlike, IsStructure;
    if ops == [] {
      SharersSeeAlike(s.ram, dir, f);
    } else {
      StepKeepsSharerIff(s, dir, bits, ops[0], f);
      StepRefines(s, dir, bits, ops[0]);
      RunSeenAlike(After(s, dir, bits, ops[0]), dir, bits, ops[1..], f);
    }
  }

  /** Two calls after which the spaces differ. An unmap frees a shared table, which the sharer still
      names; when the next map takes that block as a table for any other directory entry, the sharer
      sees the new page at an address where nothing is mapped. */
  lemma FreedTableComesBack(ram: Ram, dir: int, used: set<nat>, f: int, p: nat, q: nat, phys: Word)
    requires GoodSpace(ram, dir, used) && SharesEntries(ram, dir, f) && f in used && !IsStructure(ram, dir, f)
    requires p < 0xFFC00 && SharedIndex(p / 1024) && Empties(ram, dir, p)
    requires q < 0xFFC00 && q / 1024 != p / 1024 && !HasTableFor(ram, dir, q) && phys % 4096 == 0
    ensures var t, between := TableOf(ram, dir, p / 1024), UnmapRam(ram, dir, p);
            var after := MapRam(between, dir, q, phys, t);
            var seen := p / 1024 * 1024 + q % 1024;
      && t !in UnmapUsed(ram, dir, used, p) && t != 0
      && SeenAlike(between, dir, f) && !SeenAlike(after, dir, f)
      && PageAt(after, dir, seen) == None && PageAt(after, f, seen) == Some(Page(phys / 4096, true))
  {
    hide Present, FrameOf, WriteBit, SeenAlike;
    NullEntry();
    Or3OfAligned(phys);
    var i: Index, t := p / 1024, TableOf(ram, dir, p / 1024);
    var between := UnmapRam(ram, dir, p);
    EditKeepsShape(ram, dir, used, p, 0);
    BystanderAfterUnmap(ram, dir, used, p, f);
    UnmapSeenAlike(ram, dir, used, f, p);
    assert between[dir] == ram[dir][i := 0];
    TableEntry(t);
    var after := MapRam(between, dir, q, phys, t);
    assert after == AddTable(between, dir, q, t, Or3(phys));
    assert after[dir] == between[dir][q / 1024 := t * 4096 + 3];
    assert after[f] == ram[f];
    assert after[f][i] == ram[dir][i];
    assert after[t] == ZeroFrame()[q % 1024 := Or3(phys)];
    var seen := i * 1024 + q % 1024;
    assert seen / 1024 == i && seen % 1024 == q % 1024;
    TableIsWritable(ram, dir, i);
    assert PageAt(after, f, seen) == Some(Page(phys / 4096, true));
    assert PageAt(after, dir, seen) == None;
    NotAlike(after, dir, f, seen);
  }

  lemma TableIsWritable(ram: Ram, dir: int, i: Index)
    requires Shaped(ram, dir) && i < 1023 && HasTable(ram, dir, i)
    ensures WriteBit(ram[dir][i]) && TableOf(ram, dir, i) != dir
  {
    hide Present, FrameOf, WriteBit;
  }

  lemma NotAlike(ram: Ram, dir: int, f: int, q: nat)
    requires IsFrame(dir) && IsFrame(f) && q < 0xFFC00 && SharedIndex(q / 1024)
    requires PageAt(ram, f, q) != PageAt(ram, dir, q)
    ensures !SeenAlike(ram, dir, f)
  {
    hide PageAt;
  }
}
