/** Whole runs of map and unmap, and the address space the boot code leaves. */
module SpaceRuns {
  import opened Paging
  import opened AddressSpace
  import opened SharedSpaces
  import opened BlockSpec

  datatype Op = Map(page: nat, phys: Word) | Unmap(page: nat)

  /** Memory and the blocks in use: what the calls change. */
  datatype Space = Space(ram: Ram, used: set<nat>)

  /** What the calls ask of their callers: a page outside the window, an aligned frame, and a
      free block when a table is missing. */
  ghost predicate Allowed(s: Space, dir: int, bits: nat, op: Op)
    requires IsFrame(dir)
  {
    && op.page < 0xFFC00
    && (op.Map? ==> op.phys % 4096 == 0 && (HasTableFor(s.ram, dir, op.page) || GetResult(s.used, bits) != 0))
  }

  ghost function After(s: Space, dir: int, bits: nat, op: Op): Space
    requires IsFrame(dir) && bits <= 0x100000 && Allowed(s, dir, bits, op)
  {
    LowestClearIsLowest(s.used, 0, bits);
    match op
    case Map(p, phys) =>
      var t := LowestClear(s.used, 0, bits);
      Space(MapRam(s.ram, dir, p, phys, t), MapUsed(s.ram, dir, s.used, p, t))
    case Unmap(p) => Space(UnmapRam(s.ram, dir, p), UnmapUsed(s.ram, dir, s.used, p))
  }

  /** The same call on a flat page table: insert if absent, or remove. */
  ghost function FlatAfter(flat: map<nat, Page>, op: Op): map<nat, Page> {
    match op
    case Map(p, phys) => if p in flat then flat else flat[p := Page(phys / 4096, true)]
    case Unmap(p) => flat - {p}
  }

  ghost predicate AllowedRun(s: Space, dir: int, bits: nat, ops: seq<Op>)
    requires IsFrame(dir) && bits <= 0x100000
    decreases |ops|
  {
    ops == [] || (Allowed(s, dir, bits, ops[0]) && AllowedRun(After(s, dir, bits, ops[0]), dir, bits, ops[1..]))
  }

  ghost function AfterRun(s: Space, dir: int, bits: nat, ops: seq<Op>): Space
    requires IsFrame(dir) && bits <= 0x100000 && AllowedRun(s, dir, bits, ops)
    decreases |ops|
  {
    if ops == [] then s else AfterRun(After(s, dir, bits, ops[0]), dir, bits, ops[1..])
  }

  ghost function FlatAfterRun(flat: map<nat, Page>, ops: seq<Op>): map<nat, Page>
    decreases |ops|
  {
    if ops == [] then flat else FlatAfterRun(FlatAfter(flat, ops[0]), ops[1..])
  }

  lemma StepRefines(s: Space, dir: int, bits: nat, op: Op)
    requires IsFrame(dir) && bits <= 0x100000 && GoodSpace(s.ram, dir, s.used) && Allowed(s, dir, bits, op)
    ensures var s' := After(s, dir, bits, op);
      GoodSpace(s'.ram, dir, s'.used) && Flat(s'.ram, dir) == FlatAfter(Flat(s.ram, dir), op)
  {
    hide GoodSpace, Flat, MapRam, UnmapRam, MapUsed, UnmapUsed;
    LowestClearIsLowest(s.used, 0, bits);
    match op
    case Map(p, phys) =>
      var t := LowestClear(s.used, 0, bits);
      MapInsertsOnePage(s.ram, dir, s.used, p, phys, t);
      MapKeepsGoodSpace(s.ram, dir, s.used, p, phys, t);
    case Unmap(p) =>
      UnmapKeepsGoodSpace(s.ram, dir, s.used, p);
      UnmapRemovesOnePage(s.ram, dir, s.used, p);
  }

  /** Any run of maps and unmaps through the window refines the same run on a flat map, and ends
      in a space whose directory and tables are distinct held blocks, none of them idle. */
  lemma {:induction false} RunRefinesFlatMap(s: Space, dir: int, bits: nat, ops: seq<Op>)
    requires IsFrame(dir) && bits <= 0x100000 && GoodSpace(s.ram, dir, s.used) && AllowedRun(s, dir, bits, ops)
    ensures var s' := AfterRun(s, dir, bits, ops);
      GoodSpace(s'.ram, dir, s'.used) && Flat(s'.ram, dir) == FlatAfterRun(Flat(s.ram, dir), ops)
    decreases |ops|
  {
    hide GoodSpace, Flat, Allowed, After, FlatAfter;
    if ops != [] {
      StepRefines(s, dir, bits, ops[0]);
      RunRefinesFlatMap(After(s, dir, bits, ops[0]), dir, bits, ops[1..]);
    }
  }

  // ----- the boot page tables -----

  const BOOT_DIR: nat := 0x7F

  /** The tables that setup_paging builds: identity for the first 4 MB, the kernel at 3 GB over
      1 MB, the stack below the window, and the directory itself. */
  ghost predicate BootLayout(ram: Ram, stack: nat) {
    && stack % 4096 == 0 && stack + 0x400000 <= 0x1_0000_0000
    && (forall i: Index :: ram[0x7F][i] ==
          if i == 0 then 0x80003 else if i == 768 then 0x81003 else if i == 1022 then 0x82003
          else if i == 1023 then 0x7F003 else 0)
    && (forall j: Index :: ram[0x80][j] == 4096 * j + 3)
    && (forall j: Index :: ram[0x81][j] == 0x100000 + 4096 * j + 3)
    && (forall j: Index :: ram[0x82][j] == stack + 4096 * j + 3)
  }

  lemma BootEntries()
    ensures Present(0x80003) && FrameOf(0x80003) == 0x80 && WriteBit(0x80003)
    ensures Present(0x81003) && FrameOf(0x81003) == 0x81 && WriteBit(0x81003)
    ensures Present(0x82003) && FrameOf(0x82003) == 0x82 && WriteBit(0x82003)
    ensures Present(0x7F003) && FrameOf(0x7F003) == 0x7F && !Present(0)
  {
  }

  /** With the first megabyte reserved, the boot tables are a good space: low pages translate to
      themselves, and neither the temporary page nor the kernel heap is mapped. */
  lemma BootIsGoodSpace(ram: Ram, stack: nat, used: set<nat>)
    requires BootLayout(ram, stack) && Span(0, 0x100000) <= used
    ensures GoodSpace(ram, BOOT_DIR, used) && 0 in used
    ensures forall p: nat :: p < 1024 ==> PageAt(ram, BOOT_DIR, p) == Some(Page(p, true))
    ensures PageAt(ram, BOOT_DIR, TEMP_PAGE).None? && !HasTableFor(ram, BOOT_DIR, TEMP_PAGE)
    ensures forall p: nat :: 0xD0000 <= p < 0xF0000 ==> PageAt(ram, BOOT_DIR, p).None?
  {
    BootEntries();
    BootTablesInUse(ram, stack);
    forall p: nat | p < 1024
      ensures PageAt(ram, BOOT_DIR, p) == Some(Page(p, true))
    {
      TableEntry(p);
    }
    assert {0, 0x7F, 0x80, 0x81, 0x82} <= Span(0, 0x100000);
  }

  lemma BootTablesInUse(ram: Ram, stack: nat)
    requires BootLayout(ram, stack)
    ensures TableInUse(ram, 0x80) && TableInUse(ram, 0x81) && TableInUse(ram, 0x82)
  {
    assert Present(ram[0x80][0]) && Present(ram[0x81][0]) && Present(ram[0x82][0]);
  }
}
