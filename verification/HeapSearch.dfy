/** The search loop of kernel_alloc, as positions on the free list. */
module HeapSearch {
  import opened HeapTiles
  import opened HeapLists

  /** Member j comes after s and before c in circular order. */
  predicate Passed(s: nat, c: nat, j: nat) {
    if s < c then s < j < c else s < j || j < c
  }

  /** Member k is the first after the rover, in circular order, that can hold sz bytes. */
  ghost predicate IsNextFit(fl: seq<Tile>, s: nat, k: nat, sz: nat) {
    && s < |fl| && k < |fl| && fl[k].size >= sz
    && forall j: nat :: j < |fl| && Passed(s, k, j) ==> fl[j].size < sz
  }

  lemma NextFitUnique(fl: seq<Tile>, s: nat, j: nat, k: nat, sz: nat)
    requires IsNextFit(fl, s, j, sz) && IsNextFit(fl, s, k, sz)
    ensures j == k
  {
  }

  /** The first fit after the rover, if there is one, has nothing left of it or room for a header. */
  ghost predicate NextFitLeaves(fl: seq<Tile>, s: nat, sz: nat) {
    forall k: nat :: IsNextFit(fl, s, k, sz) ==> LeavesRoom(fl[k].size, sz)
  }

  lemma FoundFitDecides(fl: seq<Tile>, s: nat, c: nat, sz: nat)
    requires IsNextFit(fl, s, c, sz)
    ensures NextFitLeaves(fl, s, sz) <==> LeavesRoom(fl[c].size, sz)
  {
    forall k: nat | IsNextFit(fl, s, k, sz)
      ensures k == c
    {
      NextFitUnique(fl, s, k, c, sz);
    }
  }

  lemma NoFitLeaves(fl: seq<Tile>, s: nat, sz: nat)
    ensures !SomeFit(fl, sz) ==> NextFitLeaves(fl, s, sz)
  {
  }

  ghost predicate SomeFit(fl: seq<Tile>, sz: nat) {
    exists k :: 0 <= k < |fl| && fl[k].size >= sz
  }

  /** How many members at the end of the list, and blocks at the end of the row, are memory that was
      added by `calls` calls of morecore: in bytes each region joins the one before it. */
  function Fresh(rd: Reading, calls: nat): nat {
    if calls == 0 then 0 else if rd.InBytes? then 1 else calls
  }

  /** What is known with the loop at member c and the rover at s, after `calls` calls of morecore;
      `merged` says that the first of them extended a free block at the end of the heap. Only the fresh
      members fit, and the rover sits on the last member or just before it. */
  ghost predicate Pending(rd: Reading, fl: seq<Tile>, s: nat, c: nat, sz: nat, calls: nat, merged: bool) {
    && s < |fl| && c < |fl|
    && (calls == 0 ==> forall j: nat :: j < |fl| && Passed(s, c, j) ==> fl[j].size < sz)
    && (calls > 0 ==>
          && calls <= (if merged then 1 else 2) && (merged ==> rd.InBytes?) && c <= s
          && |fl| > Fresh(rd, calls)
          && s == (if rd.InBytes? && (merged || calls == 2) then |fl| - 1 else |fl| - 2)
          && (forall j: nat :: j < |fl| - Fresh(rd, calls) ==> fl[j].size < sz)
          && (forall j: nat :: |fl| - Fresh(rd, calls) <= j < |fl| ==> fl[j].size >= sz))
  }

  function Next(fl: seq<Tile>, c: nat): nat {
    if c + 1 < |fl| then c + 1 else 0
  }

  /** How many more calls of morecore are possible. */
  function CallsLeft(calls: nat, merged: bool): nat {
    if calls == 0 then 2 else if calls == 1 && !merged then 1 else 0
  }

  function Distance(fl: seq<Tile>, s: nat, c: nat): int {
    if c <= s then s - c else |fl| - c + s
  }

  lemma SearchStarts(rd: Reading, fl: seq<Tile>, s: nat, sz: nat, merged: bool)
    requires s < |fl|
    ensures Pending(rd, fl, s, Next(fl, s), sz, 0, merged)
  {
  }

  lemma SearchMovesOn(rd: Reading, fl: seq<Tile>, s: nat, c: nat, sz: nat, calls: nat, merged: bool)
    requires Pending(rd, fl, s, c, sz, calls, merged) && fl[c].size < sz && c != s
    ensures Pending(rd, fl, s, Next(fl, c), sz, calls, merged)
    ensures 0 <= Distance(fl, s, Next(fl, c)) < Distance(fl, s, c)
  {
  }

  /** Back at the rover with no fit: either nothing on the list fits, or the one call so far left
      its block just past the rover. */
  lemma FullCircle(rd: Reading, fl: seq<Tile>, s: nat, c: nat, sz: nat, calls: nat, merged: bool)
    requires Pending(rd, fl, s, c, sz, calls, merged) && fl[c].size < sz && c == s
    ensures calls == 0 ==> !SomeFit(fl, sz)
    ensures calls == 0 || (calls == 1 && !merged)
  {
  }

  /** Where a search that ends at member c has found its block: the first fresh one after a growth. */
  lemma SearchFinds(rd: Reading, fl: seq<Tile>, s: nat, c: nat, sz: nat, calls: nat, merged: bool)
    requires Pending(rd, fl, s, c, sz, calls, merged) && fl[c].size >= sz
    ensures calls == 0 ==> IsNextFit(fl, s, c, sz) && SomeFit(fl, sz)
    ensures calls > 0 ==> c == |fl| - Fresh(rd, calls) && (calls == 1 <==> merged)
  {
  }

  // ----- growth -----

  /** Is the last block of the row free? */
  ghost predicate EndsFree(ts: seq<Tile>) {
    ts != [] && ts[|ts| - 1].free
  }

  ghost predicate EndsFreeWith(ts: seq<Tile>, size: nat) {
    EndsFree(ts) && ts[|ts| - 1].size >= size
  }

  /** The end of the row after n growths by nu bytes. */
  ghost function EndAfter(hi: nat, nu: nat, n: nat): nat
    decreases n
  {
    if n == 0 then hi else EndAfter(hi, nu, n - 1) + nu
  }

  /** The row after n growths by nu bytes. */
  ghost function GrowTimes(rd: Reading, ts: seq<Tile>, hi: nat, nu: nat, n: nat): seq<Tile>
    decreases n
  {
    if n == 0 then ts else GrownIn(rd, GrowTimes(rd, ts, hi, nu, n - 1), EndAfter(hi, nu, n - 1), nu)
  }

  /** Does the next region join the row's last block? */
  ghost predicate JoinsEnd(rd: Reading, ts: seq<Tile>) {
    rd.InBytes? && EndsFree(ts)
  }

  /** Growth ends the row with a free block: the old last one extended, or a new one. */
  lemma GrowthAtEnd(rd: Reading, ts: seq<Tile>, hi: nat, nu: nat)
    ensures var r, x := GrownIn(rd, ts, hi, nu), |GrownIn(rd, ts, hi, nu)| - 1;
      && EndsFree(r)
      && (if JoinsEnd(rd, ts) then |r| == |ts| && r == ts[x := Tile(ts[x].addr, ts[x].size + nu, true)]
          else r == ts + [Tile(hi, nu, true)])
  {
    var all := ts + [Tile(hi, nu, false)];
    if rd.InBytes? {
      assert MergeTo(all, |ts|) == |all| && all[|all|..] == [];
      if EndsFree(ts) {
        assert all[..|ts| - 1] == ts[..|ts| - 1];
      } else {
        assert all[..|ts|] == ts;
      }
    } else {
      assert all[|ts| := Tile(hi, nu, true)] == ts + [Tile(hi, nu, true)];
    }
  }

  /** The list's last member when the row ends with a free block. */
  lemma LastMember(ts: seq<Tile>, base: nat)
    requires EndsFree(ts)
    ensures var fl, x := FreeList(ts, base), |ts| - 1;
      && |fl| >= 2 && fl[|fl| - 1] == ts[x] && ListIndex(ts, x) == |fl| - 2
      && fl == FreeList(ts[..x], base) + [ts[x]]
  {
    hide Frees;
    var x := |ts| - 1;
    FreesAround(ts, x);
    assert ts[x + 1..] == [];
    NoFrees();
  }

  lemma IndexGrows(ts: seq<Tile>, x: nat, y: nat)
    requires x < y < |ts| && ts[x].free
    ensures ListIndex(ts, x) < ListIndex(ts, y)
  {
    hide Frees;
    FreesAround(ts[..y], x);
    assert ts[..y][..x] == ts[..x];
  }

  /** The blocks that growth added are free and long enough. */
  ghost predicate FreshEnd(rd: Reading, ts: seq<Tile>, nu: nat, calls: nat) {
    && Fresh(rd, calls) <= |ts|
    && forall j: nat :: |ts| - Fresh(rd, calls) <= j < |ts| ==> ts[j].free && ts[j].size >= nu
  }

  lemma GrowthIsFresh(rd: Reading, ts: seq<Tile>, hi: nat, nu: nat, calls: nat)
    requires FreshEnd(rd, ts, nu, calls)
    ensures FreshEnd(rd, GrownIn(rd, ts, hi, nu), nu, calls + 1)
  {
    hide GrownIn;
    GrowthAtEnd(rd, ts, hi, nu);
  }

  /** The first of one or two free blocks at the end of the row is that member from the list's end. */
  lemma TrailingMember(ts: seq<Tile>, base: nat, n: nat, x: nat)
    requires 1 <= n <= 2 && n <= |ts| && forall j: nat :: |ts| - n <= j < |ts| ==> ts[j].free
    requires x < |ts| && ts[x].free && ListIndex(ts, x) + 1 == |FreeList(ts, base)| - n
    ensures x == |ts| - n
  {
    hide Frees, ListIndex, FreeList;
    LastMember(ts, base);
    if n == 2 {
      LastMember(ts[..|ts| - 1], base);
      SameIndex(ts, |ts| - 2);
    }
    var y := |ts| - n;
    if x < y {
      IndexGrows(ts, x, y);
    } else if y < x {
      IndexGrows(ts, y, x);
    }
  }

  lemma SameIndex(ts: seq<Tile>, x: nat)
    requires x < |ts|
    ensures ListIndex(ts[..|ts| - 1], x) == ListIndex(ts, x)
  {
    assert ts[..|ts| - 1][..x] == ts[..x];
  }

  /** The list after a growth. */
  lemma ListAfterGrowth(rd: Reading, ts: seq<Tile>, hi: nat, nu: nat, base: nat)
    ensures var fl, fl', r := FreeList(ts, base), FreeList(GrownIn(rd, ts, hi, nu), base), GrownIn(rd, ts, hi, nu);
      && EndsFree(r) && |fl'| >= 2 && fl'[|fl'| - 1] == r[|r| - 1] && fl'[|fl'| - 1].size >= nu
      && |fl'| == (if JoinsEnd(rd, ts) then |fl| else |fl| + 1)
      && (JoinsEnd(rd, ts) ==> fl'[|fl'| - 1].size == fl[|fl| - 1].size + nu)
      && fl'[..|fl'| - 1] == (if JoinsEnd(rd, ts) then fl[..|fl| - 1] else fl)
  {
    hide Frees, FreeList, GrownIn;
    var r := GrownIn(rd, ts, hi, nu);
    GrowthAtEnd(rd, ts, hi, nu);
    LastMember(r, base);
    if JoinsEnd(rd, ts) {
      LastMember(ts, base);
      assert r[..|r| - 1] == ts[..|ts| - 1];
    } else {
      assert r[..|r| - 1] == ts;
    }
  }

  /** After a call of morecore the search is pending again, from the static header. */
  lemma PendingAfterMore(rd: Reading, ts: seq<Tile>, hi: nat, nu: nat, base: nat, s: nat, sz: nat, calls: nat,
                         merged: bool)
    requires nu >= sz > 0
    requires calls == 0 ==> !SomeFit(FreeList(ts, base), sz) && merged == JoinsEnd(rd, ts)
    requires calls > 0 ==>
      && calls == 1 && !merged && EndsFree(ts)
      && Pending(rd, FreeList(ts, base), s, s, sz, calls, merged)
    ensures var fl, fl' := FreeList(ts, base), FreeList(GrownIn(rd, ts, hi, nu), base);
      |fl| >= 1 && Pending(rd, fl', |fl| - 1, 0, sz, calls + 1, merged)
  {
    hide Frees, GrownIn;
    ListAfterGrowth(rd, ts, hi, nu, base);
    var fl, fl' := FreeList(ts, base), FreeList(GrownIn(rd, ts, hi, nu), base);
    forall j: nat | j < |fl'| - 1
      ensures fl'[j] == fl[j]
    {
      assert fl'[j] == fl'[..|fl'| - 1][j];
    }
  }
}
