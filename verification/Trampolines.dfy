// Regions of trampolines in memory, with the free list that runs through their trampolines.
module Trampolines {
  import opened Seqs
  import opened TrampolinePool

  // What a trampoline is filled with when it is handed out.
  const FILL: int := 0xCCCC_CCCC_CCCC_CCCC

  // From this pointer the free list has just these places.
  ghost predicate Linked(base: int, remain: seq<int>, from: int, free: seq<int>)
    requires |remain| == PER_REGION && FreeOk(free)
    decreases |free|
  {
    if free == [] then from == 0
    else
      FreeTail(free);
      from == SlotAt(base, free[0]) && Linked(base, remain, remain[free[0]], free[1..])
  }

  lemma FreeTail(free: seq<int>)
    requires FreeOk(free) && free != []
    ensures FreeOk(free[1..])
  {
  }

  // Not what a free list could hold.
  predicate Outside(base: int, a: int) {
    a != 0 && (a < base || base + REGION_SIZE <= a)
  }

  lemma {:induction false} LinkedSame(base: int, a: seq<int>, b: seq<int>, from: int, free: seq<int>)
    requires |a| == PER_REGION && |b| == PER_REGION && FreeOk(free) && Linked(base, a, from, free)
    requires forall i <- free :: a[i] == b[i]
    ensures Linked(base, b, from, free)
    decreases |free|
  {
    if free != [] {
      assert free == [free[0]] + free[1..];
      LinkedSame(base, a, b, a[free[0]], free[1..]);
    }
  }

  lemma {:induction false} LinkedInside(base: int, remain: seq<int>, from: int, free: seq<int>)
    requires |remain| == PER_REGION && FreeOk(free) && Linked(base, remain, from, free) && RegionBase(base)
    ensures from == Head(Cell(base, free)) && (from == 0 <==> free == [])
    ensures forall i <- free :: !Outside(base, remain[i])
    decreases |free|
  {
    if free != [] {
      LinkedInside(base, remain, remain[free[0]], free[1..]);
      assert free == [free[0]] + free[1..];
      SlotBelongs(base, free[0]);
      if free[1..] != [] {
        SlotBelongs(base, free[1]);
      }
    }
  }

  // What the test for an empty region sees.
  predicate LooksEmpty(base: int, remain: seq<int>) {
    forall i :: 0 <= i < |remain| ==> !Outside(base, remain[i])
  }

  // The test passes exactly when every live trampoline goes on at a place in the region itself, so
  // in particular when none is live.
  lemma LooksEmptyExactly(base: int, remain: seq<int>, from: int, free: seq<int>)
    requires |remain| == PER_REGION && FreeOk(free) && Linked(base, remain, from, free) && RegionBase(base)
    requires remain[0] == 0 && remain[1] == 0
    ensures LooksEmpty(base, remain) <==> forall i :: FIRST <= i < PER_REGION && i !in free ==> !Outside(base, remain[i])
    ensures AllFree(Cell(base, free)) ==> LooksEmpty(base, remain)
  {
    LinkedInside(base, remain, from, free);
  }

  // So a trampoline whose target is in the region itself does not keep the region.
  lemma TargetInRegionIsMissed(base: int)
    requires RegionBase(base)
    ensures var free := Range(FIRST + 1, PER_REGION);
      exists remain: seq<int> ::
        |remain| == PER_REGION && Linked(base, remain, SlotAt(base, FIRST + 1), free) && LooksEmpty(base, remain)
        && LiveIn(Cell(base, free), SlotAt(base, FIRST))
  {
    var free := Range(FIRST + 1, PER_REGION);
    var remain := seq(PER_REGION, i =>
      if i < FIRST then 0 else if i == FIRST then base + 0x800 else if i + 1 < PER_REGION then SlotAt(base, i + 1) else 0);
    assert FreeOk(free);
    InOrderLinked(base, remain, FIRST + 1);
    forall i | 0 <= i < PER_REGION ensures !Outside(base, remain[i]) {
      if i + 1 < PER_REGION {
        SlotBelongs(base, i + 1);
      }
    }
    assert LiveIn(Cell(base, free), SlotAt(base, FIRST));
  }

  lemma {:induction false} InOrderLinked(base: int, remain: seq<int>, from: nat)
    requires |remain| == PER_REGION && FIRST <= from < PER_REGION
    requires forall i :: from <= i < PER_REGION ==> remain[i] == if i + 1 < PER_REGION then SlotAt(base, i + 1) else 0
    ensures FreeOk(Range(from, PER_REGION)) && Linked(base, remain, SlotAt(base, from), Range(from, PER_REGION))
    decreases PER_REGION - from
  {
    var free := Range(from, PER_REGION);
    if from + 1 < PER_REGION {
      InOrderLinked(base, remain, from + 1);
      assert free[1..] == Range(from + 1, PER_REGION);
    } else {
      assert free[1..] == [];
    }
  }

  lemma OneMoreFree(i: nat)
    requires FIRST <= i < PER_REGION
    ensures var rest := Range(i + 1, PER_REGION); [i] + rest == Range(i, PER_REGION) && ([i] + rest)[1..] == rest
    ensures FreeOk(Range(i, PER_REGION)) && FreeOk(Range(i + 1, PER_REGION))
  {
  }

  // ---------- One region ----------

  class Region {
    const base: int
    var pFree: int
    const remain: array<int>
    ghost var free: seq<int>

    ghost predicate Valid()
      reads this, remain
    {
      && RegionBase(base) && remain.Length == PER_REGION && FreeOk(free) && Linked(base, remain[..], pFree, free)
      && remain[0] == 0 && remain[1] == 0
      && forall i :: FIRST <= i < PER_REGION && i !in free ==> Outside(base, remain[i])
    }

    ghost function Abstract(): Cell
      reads this
    {
      Cell(base, free)
    }

    constructor (found: int)
      requires RegionBase(found)
      ensures Valid() && fresh(remain) && base == found && Abstract() == NewCell(found)
    {
      hide FreeOk, Range, RegionBase;
      base, pFree, free := found, 0, [];
      remain := new int[PER_REGION](_ => 0);
      new;
      var i := PER_REGION - 1;
      OneMoreFree(i);
      while i > 1
        invariant 1 <= i < PER_REGION && free == Range(i + 1, PER_REGION) && FreeOk(free)
        invariant Linked(base, remain[..], pFree, free)
        invariant remain[0] == 0 && remain[1] == 0
      {
        ghost var before := remain[..];
        remain[i] := pFree;
        LinkedSame(base, before, remain[..], pFree, free);
        pFree := SlotAt(base, i);
        OneMoreFree(i);
        free := [i] + free;
        i := i - 1;
      }
      forall i | FIRST <= i < PER_REGION ensures i in free {
        assert free[i - FIRST] == i;
      }
    }

    // The first of the free list is taken off it.
    method Take() returns (slot: int)
      requires Valid() && free != []
      modifies this`pFree, this`free, remain
      ensures Valid() && slot == Head(old(Abstract())) && free == old(free[1..])
    {
      slot := pFree;
      var i := PlaceOf(slot);
      SlotBelongs(base, free[0]);
      ghost var before := remain[..];
      pFree := remain[i];
      remain[i] := FILL;
      free := free[1..];
      LinkedSame(base, before, remain[..], pFree, free);
    }

    method Give(slot: int)
      requires Valid() && LiveIn(Abstract(), slot)
      modifies this`pFree, this`free, remain
      ensures Valid() && free == [PlaceOf(slot)] + old(free)
    {
      LiveBelongs(Abstract(), slot);
      var i := PlaceOf(slot);
      ghost var before := remain[..];
      remain[i] := pFree;
      LinkedSame(base, before, remain[..], pFree, free);
      pFree := slot;
      free := [i] + free;
      assert free[1..] == old(free);
    }

    // The head of the free list is within the bounds.
    predicate Offers(lo: int, hi: int)
      reads this
    {
      pFree != 0 && lo <= pFree <= hi
    }

    lemma OffersIs(lo: int, hi: int)
      requires Valid()
      ensures Offers(lo, hi) <==> Fits(Abstract(), lo, hi)
    {
      LinkedInside(base, remain[..], pFree, free);
    }

    // An attach sets where the moved code goes on.
    method SetRemain(slot: int, to: int)
      requires Valid() && LiveIn(Abstract(), slot) && Outside(base, to)
      modifies remain
      ensures Valid()
    {
      LiveBelongs(Abstract(), slot);
      ghost var before := remain[..];
      remain[PlaceOf(slot)] := to;
      LinkedSame(base, before, remain[..], pFree, free);
    }

    // detour_is_region_empty(), in a region
    method IsEmpty() returns (empty: bool)
      requires Valid()
      ensures empty <==> AllFree(Abstract())
    {
      LooksEmptyExactly(base, remain[..], pFree, free);
      for i := 0 to remain.Length
        invariant forall j :: 0 <= j < i ==> !Outside(base, remain[j])
      {
        if Outside(base, remain[i]) {
          assert remain[..][i] == remain[i];
          return false;
        }
      }
      assert forall i :: 0 <= i < PER_REGION ==> remain[..][i] == remain[i];
      return true;
    }
  }

  // ---------- All regions ----------

  ghost function Cells(rs: seq<Region>): (cs: seq<Cell>)
    reads rs
    ensures |cs| == |rs| && forall k :: 0 <= k < |rs| ==> cs[k] == rs[k].Abstract()
  {
    seq(|rs|, k requires 0 <= k < |rs| reads rs => rs[k].Abstract())
  }

  ghost function Remains(rs: seq<Region>): set<array<int>> {
    set r <- rs :: r.remain
  }

  ghost predicate RegionsOk(rs: seq<Region>)
    reads rs, Remains(rs)
  {
    && (forall k :: 0 <= k < |rs| ==> rs[k].Valid())
    && (forall j, k :: 0 <= j < k < |rs| ==>
          rs[j] != rs[k] && rs[j].remain != rs[k].remain && rs[j].base != rs[k].base)
  }

  lemma NewIsWhole(r: Region, rs: seq<Region>)
    requires RegionsOk(rs) && r.Valid()
    requires forall k :: 0 <= k < |rs| ==> rs[k] != r && rs[k].remain != r.remain && rs[k].base != r.base
    ensures RegionsOk([r] + rs) && Cells([r] + rs) == [r.Abstract()] + Cells(rs) && ([r] + rs)[1..] == rs
  {
    hide Region.Valid, Cells;
    var more := [r] + rs;
    assert more[1..] == rs;
    forall k | 0 <= k < |more| ensures more[k] == if k == 0 then r else rs[k - 1] {
    }
    assert Cells(more) == [r.Abstract()] + Cells(rs);
  }

  lemma BasesDiffer(rs: seq<Region>, found: int)
    requires found !in Bases(Cells(rs))
    ensures forall k :: 0 <= k < |rs| ==> rs[k].base != found
  {
    forall k | 0 <= k < |rs| ensures rs[k].base != found {
      assert Bases(Cells(rs))[k] == rs[k].base;
    }
  }

  lemma CellsDiffer(rs: seq<Region>)
    requires RegionsOk(rs)
    ensures forall k :: 0 <= k < |rs| ==> rs[k].Valid() && RegionBase(rs[k].base)
    ensures forall j, k :: 0 <= j < k < |rs| ==> rs[j] != rs[k]
    ensures var cs := Cells(rs); forall j, k :: 0 <= j < k < |cs| ==> cs[j].base != cs[k].base
  {
  }

  class Allocator {
    var regions: seq<Region>
    var current: Region?

    ghost predicate Valid()
      reads this, regions, Remains(regions)
    {
      RegionsOk(regions) && (current == null || current in regions)
    }

    ghost function Abstract(): Pool
      reads this, regions, current
    {
      Pool(Cells(regions), if current == null then 0 else current.base)
    }

    constructor ()
      ensures Valid() && Abstract() == Pool([], 0)
    {
      regions, current := [], null;
    }

    // The first of the free list of the current region.
    method TakeFromCurrent(ghost k: nat) returns (slot: int)
      requires Valid() && k < |regions| && regions[k] == current && Abstract().cells[k].free != []
      modifies regions[k], regions[k].remain
      ensures Valid() && (Abstract(), slot) == TakeFrom(old(Abstract()), k)
    {
      ghost var before := Cells(regions);
      slot := current.Take();
      assert Cells(regions) == before[k := Cell(before[k].base, before[k].free[1..])];
    }

    // The first region of the list that will do.
    method Search(lo: int, hi: int) returns (r: Region?)
      requires Valid()
      ensures var k := FirstFit(Cells(regions), lo, hi); r == if k < |regions| then regions[k] else null
    {
      hide RegionsOk, Cells, Fits;
      CellsDiffer(regions);
      for i := 0 to |regions|
        invariant forall j :: 0 <= j < i ==> !Fits(Cells(regions)[j], lo, hi)
      {
        regions[i].OffersIs(lo, hi);
        if regions[i].Offers(lo, hi) {
          return regions[i];
        }
      }
      r := null;
    }

    // The region to take from.
    method Choose(lo: int, hi: int) returns (r: Region?)
      requires Valid()
      ensures var k := Choice(Abstract(), lo, hi); r == if k < |regions| then regions[k] else null
    {
      hide RegionsOk, Cells, Choice, Fits, FirstFit;
      ghost var p := Abstract();
      ghost var k := 0;
      CellsDiffer(regions);
      assert p.cells == Cells(regions);
      r := current;
      if r != null {
        k :| 0 <= k < |regions| && regions[k] == r;
      } else if regions != [] {
        r := regions[0];
      }
      if r != null {
        assert p.cells[k] == r.Abstract();
        r.OffersIs(lo, hi);
        if r.Offers(lo, hi) {
          ChoiceIsDefault(p, lo, hi, k);
          return;
        }
        DefaultIsNoChoice(p, lo, hi, k);
      } else {
        NoChoice(p, lo, hi);
      }
      r := Search(lo, hi);
    }

    method AddRegion(found: int, lo: int, hi: int) returns (ok: bool)
      requires Valid() && RegionBase(found) && found !in Bases(Cells(regions))
      modifies this
      ensures Valid() && Abstract() == Pool([NewCell(found)] + old(Abstract()).cells, found)
      ensures regions != [] && regions[1..] == old(regions) && current == regions[0]
      ensures fresh(regions[0]) && fresh(regions[0].remain) && ok == Fits(NewCell(found), lo, hi)
    {
      hide Cells, Bases, Fits, NewCell, RegionBase, FreeOk, Linked;
      BasesDiffer(regions, found);
      var region := new Region(found);
      region.OffersIs(lo, hi);
      ok := region.Offers(lo, hi);
      NewIsWhole(region, regions);
      current, regions := region, [region] + regions;
    }

    method AllocFromNew(lo: int, hi: int, found: int) returns (slot: int)
      requires Valid() && (found == 0 || (RegionBase(found) && found !in Bases(Cells(regions))))
      modifies this
      ensures Valid() && (Abstract(), slot) == AllocNew(old(Abstract()), lo, hi, found)
      ensures forall r <- regions :: r in old(regions) || (fresh(r) && fresh(r.remain))
    {
      current := null;
      if found == 0 {
        return 0;
      }
      var ok := AddRegion(found, lo, hi);
      if ok {
        slot := TakeFromCurrent(0);
      } else {
        slot := 0;
      }
    }

    method AllocTrampoline(lo: int, hi: int, found: int) returns (slot: int)
      requires Valid() && (found == 0 || (RegionBase(found) && found !in Bases(Cells(regions))))
      modifies this, regions, Remains(regions)
      ensures Valid() && (Abstract(), slot) == Alloc(old(Abstract()), lo, hi, found)
      ensures forall r <- regions :: r in old(regions) || (fresh(r) && fresh(r.remain))
    {
      hide Choice, AllocNew;
      ghost var k := Choice(Abstract(), lo, hi);
      var r := Choose(lo, hi);
      if r != null {
        current := r;
        slot := TakeFromCurrent(k);
      } else {
        slot := AllocFromNew(lo, hi, found);
      }
    }

    // The place in the list of the region that an address lies in.
    method RegionAt(a: int) returns (k: nat)
      requires Valid()
      ensures Valid() && k == IndexOf(Cells(regions), RegionOf(a))
    {
      hide RegionsOk, Cells;
      k := 0;
      while k < |regions| && regions[k].base != RegionOf(a)
        invariant 0 <= k <= |regions| && forall j :: 0 <= j < k ==> Cells(regions)[j].base != RegionOf(a)
      {
        k := k + 1;
      }
      assert k < |regions| ==> Cells(regions)[k].base == RegionOf(a);
    }

    method GiveTo(k: nat, slot: int)
      requires Valid() && k < |regions| && LiveIn(Cells(regions)[k], slot)
      modifies regions[k], regions[k].remain
      ensures Valid() && Cells(regions) == var cs := old(Cells(regions)); cs[k := cs[k].(free := [PlaceOf(slot)] + cs[k].free)]
    {
      ghost var before := Cells(regions);
      regions[k].Give(slot);
      assert Cells(regions) == before[k := before[k].(free := [PlaceOf(slot)] + before[k].free)];
    }

    // detour_free_trampoline(): from the address to the region, and onto its free list.
    method FreeTrampoline(slot: int)
      requires Valid() && Live(Abstract(), slot)
      modifies regions, Remains(regions)
      ensures Valid() && Abstract() == Free(old(Abstract()), slot)
    {
      hide RegionOf, PlaceOf, LiveIn, Live, PoolOk, RegionsOk, Cells;
      RegionsArePool(regions, current);
      LiveWhere(Abstract(), slot);
      var k := RegionAt(slot);
      GiveTo(k, slot);
    }

    method SetRemainIn(k: nat, slot: int, to: int)
      requires Valid() && k < |regions| && LiveIn(Cells(regions)[k], slot) && Outside(regions[k].base, to)
      modifies regions[k].remain
      ensures Valid() && Cells(regions) == old(Cells(regions))
    {
      regions[k].SetRemain(slot, to);
    }

    // An attach sets where the moved code of its trampoline goes on, outside the regions.
    method SetRemain(slot: int, to: int)
      requires Valid() && Live(Abstract(), slot) && forall r <- regions :: Outside(r.base, to)
      modifies Remains(regions)
      ensures Valid() && Abstract() == old(Abstract())
    {
      hide RegionOf, PlaceOf, LiveIn, Live, PoolOk, RegionBase, FreeOk, Linked, Outside, Bases;
      RegionsArePool(regions, current);
      LiveWhere(Abstract(), slot);
      var k := RegionAt(slot);
      SetRemainIn(k, slot, to);
    }

    // One turn of the loop below.
    method ReleaseIfEmpty(i: nat) returns (released: bool)
      requires Valid() && i < |regions|
      modifies this
      ensures Valid() && var rs, cs := old(regions), old(Cells(regions));
        && released == AllFree(cs[i]) && current == (if released then null else old(current))
        && regions == (if released then rs[..i] + rs[i + 1..] else rs)
        && Cells(regions) == if released then cs[..i] + cs[i + 1..] else cs
    {
      hide RegionsOk, Cells;
      CellsDiffer(regions);
      ghost var cs := Cells(regions);
      released := regions[i].IsEmpty();
      assert forall r: array<int> :: r in Remains(regions) ==> allocated(r);
      if released {
        LessIsWhole(regions, i);
        var less := regions[..i] + regions[i + 1..];
        assert forall r: array<int> :: r in Remains(less) ==> allocated(r);
        regions, current := less, null;
      }
    }

    // detour_free_unused_trampoline_regions()
    method ReleaseUnused()
      requires Valid()
      modifies this
      ensures Valid() && Abstract() == Release(old(Abstract())) && forall r <- regions :: r in old(regions)
    {
      hide RegionsOk, Cells, Used, AllFree;
      ghost var start := Cells(regions);
      var i, released := 0, false;
      UsedStart(start);
      while i < |regions|
        invariant Valid() && 0 <= i <= |regions| && forall r <- regions :: r in old(regions)
        invariant UsedFrom(start, Cells(regions), i)
        invariant current == (if released then null else old(current)) && released == (|regions| < |start|)
        decreases |regions| - i
      {
        UsedTurn(start, Cells(regions), i);
        var gone := ReleaseIfEmpty(i);
        released := released || gone;
        if !gone {
          i := i + 1;
        }
      }
      UsedEnd(start, Cells(regions));
    }

    // detour_free_trampoline_region_if_unused()
    method ReleaseRegionOf(slot: int)
      requires Valid()
      modifies this
      ensures Valid() && Abstract() == ReleaseOne(old(Abstract()), slot) && forall r <- regions :: r in old(regions)
    {
      hide RegionsOk, Cells, AllFree, RegionOf;
      var k := RegionAt(slot);
      if k < |regions| {
        var _ := ReleaseIfEmpty(k);
      }
    }
  }

  lemma LessIsWhole(rs: seq<Region>, i: nat)
    requires RegionsOk(rs) && i < |rs|
    ensures RegionsOk(rs[..i] + rs[i + 1..]) && Cells(rs[..i] + rs[i + 1..]) == Cells(rs)[..i] + Cells(rs)[i + 1..]
    ensures forall r <- rs[..i] + rs[i + 1..] :: r in rs
  {
    hide Region.Valid, Cells;
    var less := rs[..i] + rs[i + 1..];
    forall k | 0 <= k < |less| ensures less[k] == rs[if k < i then k else k + 1] {
    }
    assert Cells(less) == Cells(rs)[..i] + Cells(rs)[i + 1..];
  }

  // The loop has kept what is used of the regions up to a place, and the others are still there.
  ghost predicate UsedFrom(start: seq<Cell>, cs: seq<Cell>, i: nat) {
    i <= |cs| <= |start| && Used(start) == cs[..i] + Used(cs[i..])
  }

  lemma UsedStart(cs: seq<Cell>)
    ensures UsedFrom(cs, cs, 0)
  {
    assert cs[0..] == cs && cs[..0] + Used(cs) == Used(cs);
  }

  lemma UsedTurn(start: seq<Cell>, cs: seq<Cell>, i: nat)
    requires UsedFrom(start, cs, i) && i < |cs|
    ensures if AllFree(cs[i]) then UsedFrom(start, cs[..i] + cs[i + 1..], i) else UsedFrom(start, cs, i + 1)
  {
    hide AllFree;
    Next(cs, i);
    if AllFree(cs[i]) {
      var less := cs[..i] + cs[i + 1..];
      Parts(cs[..i], cs[i + 1..]);
      assert [] + Used(cs[i + 1..]) == Used(cs[i + 1..]);
    } else {
      Assoc(cs[..i], [cs[i]], Used(cs[i + 1..]));
    }
  }

  lemma UsedEnd(start: seq<Cell>, cs: seq<Cell>)
    requires UsedFrom(start, cs, |cs|)
    ensures cs == Used(start)
  {
    assert cs[|cs|..] == [] && cs[..|cs|] + [] == cs;
  }

  lemma RegionsArePool(rs: seq<Region>, current: Region?)
    requires RegionsOk(rs) && (current == null || current in rs)
    ensures PoolOk(Pool(Cells(rs), if current == null then 0 else current.base))
  {
    if current != null {
      var k :| 0 <= k < |rs| && rs[k] == current;
      assert Bases(Cells(rs))[k] == current.base;
    }
  }
}
