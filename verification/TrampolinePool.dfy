// The pool of trampolines: what allocating, freeing and releasing regions do to it, and what any
// run of them keeps.
module TrampolinePool {
  const REGION_SIZE: int := 0x10000
  const TRAMPOLINE_SIZE: int := 96
  const PER_REGION: nat := 681

  // The end of the addresses that a program can have.
  const USER_LIMIT: int := 0x8000_0000_0000

  // The first two places behind the head of a region are never handed out.
  const FIRST: nat := 2

  function SlotAt(base: int, i: int): int {
    base + TRAMPOLINE_SIZE * (i + 1)
  }

  // A region by its address, and the places in it that are free, in the order of the free list.
  datatype Cell = Cell(base: int, free: seq<int>)

  // All the regions, and the address of the default one, or 0.
  datatype Pool = Pool(cells: seq<Cell>, current: int)

  // ---------- What is kept ----------

  // Where the system puts a region.
  ghost predicate RegionBase(base: int) {
    0 < base < USER_LIMIT && base % REGION_SIZE == 0
  }

  ghost predicate FreeOk(free: seq<int>) {
    && (forall j :: 0 <= j < |free| ==> FIRST <= free[j] < PER_REGION)
    && (forall i, j :: 0 <= i < j < |free| ==> free[i] != free[j])
  }

  ghost predicate CellOk(c: Cell) {
    RegionBase(c.base) && FreeOk(c.free)
  }

  function Bases(cells: seq<Cell>): (bs: seq<int>)
    ensures |bs| == |cells| && forall k :: 0 <= k < |cells| ==> bs[k] == cells[k].base
  {
    seq(|cells|, k requires 0 <= k < |cells| => cells[k].base)
  }

  ghost predicate PoolOk(p: Pool) {
    && (forall k :: 0 <= k < |p.cells| ==> CellOk(p.cells[k]))
    && (forall j, k :: 0 <= j < k < |p.cells| ==> p.cells[j].base != p.cells[k].base)
    && (p.current == 0 || p.current in Bases(p.cells))
  }

  // A trampoline that has been handed out.
  ghost predicate LiveIn(c: Cell, a: int) {
    exists i :: FIRST <= i < PER_REGION && i !in c.free && a == SlotAt(c.base, i)
  }

  ghost predicate Live(p: Pool, a: int) {
    exists k :: 0 <= k < |p.cells| && LiveIn(p.cells[k], a)
  }

  // ---------- The operations ----------

  function Range(from: int, to: int): (r: seq<int>)
    requires from <= to
    ensures |r| == to - from && forall j :: 0 <= j < |r| ==> r[j] == from + j
  {
    seq(to - from, j => from + j)
  }

  function NewCell(base: int): Cell {
    Cell(base, Range(FIRST, PER_REGION))
  }

  // The head of the free list, or 0.
  function Head(c: Cell): int {
    if c.free == [] then 0 else SlotAt(c.base, c.free[0])
  }

  predicate Fits(c: Cell, lo: int, hi: int) {
    c.free != [] && lo <= Head(c) <= hi
  }

  function IndexOf(cells: seq<Cell>, base: int): (k: nat)
    ensures k <= |cells| && (k < |cells| ==> cells[k].base == base)
    ensures forall j :: 0 <= j < k ==> cells[j].base != base
  {
    if cells == [] || cells[0].base == base then 0 else 1 + IndexOf(cells[1..], base)
  }

  function FirstFit(cells: seq<Cell>, lo: int, hi: int): (k: nat)
    ensures k <= |cells| && (k < |cells| ==> Fits(cells[k], lo, hi))
    ensures forall j :: 0 <= j < k ==> !Fits(cells[j], lo, hi)
  {
    if cells == [] || Fits(cells[0], lo, hi) then 0 else 1 + FirstFit(cells[1..], lo, hi)
  }

  // The region to take from: the default one if it will do, and otherwise the first that will.
  function Choice(p: Pool, lo: int, hi: int): (k: nat)
    ensures k <= |p.cells| && (k < |p.cells| ==> Fits(p.cells[k], lo, hi))
  {
    var default_ := if p.current == 0 && p.cells != [] then p.cells[0].base else p.current;
    var d := IndexOf(p.cells, default_);
    if default_ != 0 && d < |p.cells| && Fits(p.cells[d], lo, hi) then d else FirstFit(p.cells, lo, hi)
  }

  function TakeFrom(p: Pool, k: nat): (Pool, int)
    requires k < |p.cells| && p.cells[k].free != []
  {
    var c := p.cells[k];
    (Pool(p.cells[k := Cell(c.base, c.free[1..])], c.base), Head(c))
  }

  // A new region at the front of the list, when the system finds one.
  function AllocNew(p: Pool, lo: int, hi: int, found: int): (Pool, int) {
    if found == 0 then (Pool(p.cells, 0), 0)
    else
      var more := Pool([NewCell(found)] + p.cells, found);
      if Fits(more.cells[0], lo, hi) then TakeFrom(more, 0) else (more, 0)
  }

  // detour_alloc_trampoline() within these bounds, with the region that the system finds, or 0; the
  // result is 0 when there is none.
  function Alloc(p: Pool, lo: int, hi: int, found: int): (Pool, int) {
    var k := Choice(p, lo, hi);
    if k < |p.cells| then TakeFrom(p, k) else AllocNew(p, lo, hi, found)
  }

  function RegionOf(a: int): int {
    a - a % REGION_SIZE
  }

  function PlaceOf(a: int): int {
    (a - RegionOf(a)) / TRAMPOLINE_SIZE - 1
  }

  // detour_free_trampoline()
  function Free(p: Pool, a: int): Pool {
    var k := IndexOf(p.cells, RegionOf(a));
    if k == |p.cells| then p else p.(cells := p.cells[k := p.cells[k].(free := [PlaceOf(a)] + p.cells[k].free)])
  }

  predicate AllFree(c: Cell) {
    forall i :: FIRST <= i < PER_REGION ==> i in c.free
  }

  function Used(cells: seq<Cell>): seq<Cell> {
    if cells == [] then [] else (if AllFree(cells[0]) then [] else [cells[0]]) + Used(cells[1..])
  }

  // detour_free_unused_trampoline_regions()
  function Release(p: Pool): Pool {
    var kept := Used(p.cells);
    Pool(kept, if |kept| < |p.cells| then 0 else p.current)
  }

  // detour_free_trampoline_region_if_unused()
  function ReleaseOne(p: Pool, a: int): Pool {
    var k := IndexOf(p.cells, RegionOf(a));
    if k < |p.cells| && AllFree(p.cells[k]) then Pool(p.cells[..k] + p.cells[k + 1..], 0) else p
  }

  // ---------- Addresses ----------

  lemma SlotBelongs(base: int, i: int)
    requires RegionBase(base) && 0 <= i < PER_REGION
    ensures RegionOf(SlotAt(base, i)) == base && PlaceOf(SlotAt(base, i)) == i
    ensures base < SlotAt(base, i) && SlotAt(base, i) + TRAMPOLINE_SIZE <= base + REGION_SIZE
  {
    WholeRegions(base / REGION_SIZE, TRAMPOLINE_SIZE * (i + 1));
  }

  lemma WholeRegions(n: int, rest: int)
    requires 0 <= rest < REGION_SIZE
    ensures (REGION_SIZE * n + rest) % REGION_SIZE == rest
  {
  }

  lemma LiveBelongs(c: Cell, a: int)
    requires CellOk(c)
    ensures LiveIn(c, a) <==> RegionOf(a) == c.base && FIRST <= PlaceOf(a) < PER_REGION
                              && a == SlotAt(c.base, PlaceOf(a)) && PlaceOf(a) !in c.free
  {
    if i :| FIRST <= i < PER_REGION && i !in c.free && a == SlotAt(c.base, i) {
      SlotBelongs(c.base, i);
    }
  }

  // A live trampoline is in exactly one region.
  lemma LiveWhere(p: Pool, a: int)
    requires PoolOk(p)
    ensures var k := IndexOf(p.cells, RegionOf(a)); Live(p, a) <==> k < |p.cells| && LiveIn(p.cells[k], a)
  {
    var k := IndexOf(p.cells, RegionOf(a));
    if j :| 0 <= j < |p.cells| && LiveIn(p.cells[j], a) {
      LiveBelongs(p.cells[j], a);
    }
  }

  // ---------- One place more, or less ----------

  lemma TakeIsLive(p: Pool, k: nat)
    requires PoolOk(p) && k < |p.cells| && p.cells[k].free != []
    ensures var (q, a) := TakeFrom(p, k);
      PoolOk(q) && a != 0 && !Live(p, a) && forall b :: Live(q, b) <==> Live(p, b) || b == a
  {
    var (q, a) := TakeFrom(p, k);
    var c, d := p.cells[k], q.cells[k];
    assert CellOk(d);
    assert q.current == Bases(q.cells)[k];
    SlotBelongs(c.base, c.free[0]);
    LiveBelongs(c, a);
    LiveWhere(p, a);
    IndexIs(p.cells, k);
    forall b ensures Live(q, b) <==> Live(p, b) || b == a {
      LiveWhere(p, b);
      LiveWhere(q, b);
      SameIndex(p.cells, q.cells, RegionOf(b));
      LiveBelongs(c, b);
      LiveBelongs(d, b);
    }
  }

  lemma IndexIs(cells: seq<Cell>, k: nat)
    requires k < |cells| && forall i, j :: 0 <= i < j < |cells| ==> cells[i].base != cells[j].base
    ensures IndexOf(cells, cells[k].base) == k
  {
  }

  // The region that will do at this place of the list is the choice, when it is the default one,
  // and the first that will do is when the default one will not.
  lemma ChoiceIsDefault(p: Pool, lo: int, hi: int, k: nat)
    requires k < |p.cells| && forall i, j :: 0 <= i < j < |p.cells| ==> p.cells[i].base != p.cells[j].base
    requires p.cells[k].base != 0 && (p.current == p.cells[k].base || (p.current == 0 && k == 0))
    requires Fits(p.cells[k], lo, hi)
    ensures Choice(p, lo, hi) == k
  {
    IndexIs(p.cells, k);
  }

  lemma DefaultIsNoChoice(p: Pool, lo: int, hi: int, k: nat)
    requires k < |p.cells| && forall i, j :: 0 <= i < j < |p.cells| ==> p.cells[i].base != p.cells[j].base
    requires p.current == p.cells[k].base || (p.current == 0 && k == 0)
    requires !Fits(p.cells[k], lo, hi)
    ensures Choice(p, lo, hi) == FirstFit(p.cells, lo, hi)
  {
    IndexIs(p.cells, k);
  }

  lemma NoChoice(p: Pool, lo: int, hi: int)
    requires p.cells == []
    ensures Choice(p, lo, hi) == FirstFit(p.cells, lo, hi)
  {
  }

  lemma SameIndex(cs: seq<Cell>, ds: seq<Cell>, base: int)
    requires |cs| == |ds| && forall k :: 0 <= k < |cs| ==> cs[k].base == ds[k].base
    ensures IndexOf(cs, base) == IndexOf(ds, base)
  {
    var i, j := IndexOf(cs, base), IndexOf(ds, base);
  }

  // What is handed out was free, lies within the bounds, and is live from then on; nothing is
  // handed out only when no free list has its head within the bounds and no new region helps.
  lemma AllocHandsOut(p: Pool, lo: int, hi: int, found: int)
    requires PoolOk(p) && (found == 0 || (RegionBase(found) && found !in Bases(p.cells)))
    ensures var (q, a) := Alloc(p, lo, hi, found);
      && PoolOk(q)
      && (a != 0 ==> lo <= a <= hi && !Live(p, a))
      && (forall b :: Live(q, b) <==> Live(p, b) || (b == a && a != 0))
      && (a == 0 <==> (forall c <- p.cells :: !Fits(c, lo, hi)) && (found == 0 || !Fits(NewCell(found), lo, hi)))
  {
    hide PoolOk, Live;
    var k := Choice(p, lo, hi);
    ChoiceFits(p, lo, hi);
    if k < |p.cells| {
      TakeIsLive(p, k);
    } else if found == 0 {
      NoDefault(p);
    } else {
      var more := Pool([NewCell(found)] + p.cells, found);
      NewIsFree(p, found);
      if Fits(more.cells[0], lo, hi) {
        TakeIsLive(more, 0);
      }
    }
  }

  lemma ChoiceFits(p: Pool, lo: int, hi: int)
    ensures Choice(p, lo, hi) < |p.cells| <==> exists c <- p.cells :: Fits(c, lo, hi)
  {
    var k := FirstFit(p.cells, lo, hi);
    if k < |p.cells| {
      assert p.cells[k] in p.cells;
    }
    if Choice(p, lo, hi) < |p.cells| {
      assert p.cells[Choice(p, lo, hi)] in p.cells;
    }
  }

  lemma NoDefault(p: Pool)
    requires PoolOk(p)
    ensures PoolOk(Pool(p.cells, 0)) && forall b :: Live(Pool(p.cells, 0), b) <==> Live(p, b)
  {
  }

  lemma NewIsFree(p: Pool, found: int)
    requires PoolOk(p) && RegionBase(found) && found !in Bases(p.cells)
    ensures var more := Pool([NewCell(found)] + p.cells, found);
      PoolOk(more) && forall b :: Live(more, b) <==> Live(p, b)
  {
    var c := NewCell(found);
    var more := Pool([c] + p.cells, found);
    assert Bases(more.cells)[0] == found;
    assert forall k :: 0 <= k < |p.cells| ==> Bases(p.cells)[k] != found;
    forall i | FIRST <= i < PER_REGION ensures i in c.free {
      assert c.free[i - FIRST] == i;
    }
    forall b ensures Live(more, b) <==> Live(p, b) {
      assert !LiveIn(more.cells[0], b);
      if k :| 0 <= k < |p.cells| && LiveIn(p.cells[k], b) {
        assert LiveIn(more.cells[k + 1], b);
      }
      if k :| 0 < k < |more.cells| && LiveIn(more.cells[k], b) {
        assert LiveIn(p.cells[k - 1], b);
      }
    }
  }

  // What is freed was live, and is not live any more.
  lemma FreeTakesBack(p: Pool, a: int)
    requires PoolOk(p) && Live(p, a)
    ensures var q := Free(p, a); PoolOk(q) && forall b :: Live(q, b) <==> Live(p, b) && b != a
  {
    hide RegionOf, PlaceOf, SlotAt, LiveIn, Live;
    LiveWhere(p, a);
    var q, k := Free(p, a), IndexOf(p.cells, RegionOf(a));
    var c, d := p.cells[k], q.cells[k];
    LiveBelongs(c, a);
    assert CellOk(d);
    assert q.current in Bases(q.cells) <==> p.current in Bases(p.cells) by {
      assert Bases(q.cells) == Bases(p.cells);
    }
    forall b ensures Live(q, b) <==> Live(p, b) && b != a {
      LiveWhere(p, b);
      LiveWhere(q, b);
      SameIndex(p.cells, q.cells, RegionOf(b));
      LiveBelongs(c, b);
      LiveBelongs(d, b);
    }
  }

  // A region has no live trampoline exactly when all its places are on the free list.
  lemma NoneLive(c: Cell)
    ensures AllFree(c) <==> forall a :: !LiveIn(c, a)
  {
    if i :| FIRST <= i < PER_REGION && i !in c.free {
      assert LiveIn(c, SlotAt(c.base, i));
    }
  }

  lemma {:induction false} UsedAre(cells: seq<Cell>)
    ensures forall c :: c in Used(cells) <==> c in cells && !AllFree(c)
    ensures |Used(cells)| <= |cells| && (|Used(cells)| == |cells| ==> Used(cells) == cells)
  {
    hide AllFree;
    if cells != [] {
      UsedAre(cells[1..]);
      assert cells == [cells[0]] + cells[1..];
      assert [] + Used(cells[1..]) == Used(cells[1..]);
    }
  }

  lemma {:induction false} UsedDiffer(cells: seq<Cell>)
    requires forall j, k :: 0 <= j < k < |cells| ==> cells[j].base != cells[k].base
    ensures forall j, k :: 0 <= j < k < |Used(cells)| ==> Used(cells)[j].base != Used(cells)[k].base
  {
    hide AllFree;
    if cells != [] {
      var rest := Used(cells[1..]);
      UsedDiffer(cells[1..]);
      UsedAre(cells[1..]);
      forall k | 0 <= k < |rest| ensures rest[k].base != cells[0].base {
        assert rest[k] in cells[1..];
      }
    }
  }

  // Exactly the regions without a live trampoline are released, and no live trampoline goes.
  lemma ReleaseKeepsLive(p: Pool)
    requires PoolOk(p)
    ensures var q := Release(p);
      && PoolOk(q) && (forall a :: Live(q, a) <==> Live(p, a))
      && (forall c :: c in q.cells <==> c in p.cells && exists a :: LiveIn(c, a))
  {
    hide AllFree;
    var q := Release(p);
    UsedAre(p.cells);
    UsedDiffer(p.cells);
    forall c ensures AllFree(c) <==> forall a :: !LiveIn(c, a) {
      NoneLive(c);
    }
    assert forall k :: 0 <= k < |q.cells| ==> q.cells[k] in p.cells;
    forall a ensures Live(q, a) <==> Live(p, a) {
      if k :| 0 <= k < |p.cells| && LiveIn(p.cells[k], a) {
        assert p.cells[k] in q.cells;
      }
    }
  }

  lemma ReleaseOneKeepsLive(p: Pool, a: int)
    requires PoolOk(p)
    ensures var q := ReleaseOne(p, a); PoolOk(q) && forall b :: Live(q, b) <==> Live(p, b)
  {
    hide AllFree;
    var q, k := ReleaseOne(p, a), IndexOf(p.cells, RegionOf(a));
    if k < |p.cells| && AllFree(p.cells[k]) {
      NoneLive(p.cells[k]);
      forall j | 0 <= j < |q.cells| ensures q.cells[j] == p.cells[if j < k then j else j + 1] {
      }
      forall b ensures Live(q, b) <==> Live(p, b) {
        if j :| 0 <= j < |p.cells| && LiveIn(p.cells[j], b) {
          assert LiveIn(q.cells[if j < k then j else j - 1], b);
        }
      }
    }
  }

  // ---------- Any run ----------

  datatype Event = Asks(lo: int, hi: int, found: int) | Returns(slot: int) | Sweeps | Drops(slot: int)

  // The system finds a region that is not one of these; what is freed was handed out.
  ghost predicate Possible(p: Pool, e: Event) {
    match e
    case Asks(_, _, found) => found == 0 || (RegionBase(found) && found !in Bases(p.cells))
    case Returns(slot) => Live(p, slot)
    case Sweeps => true
    case Drops(_) => true
  }

  // The pool after it, and which trampolines the callers hold, if they held these.
  function After(p: Pool, held: set<int>, e: Event): (Pool, set<int>) {
    match e
    case Asks(lo, hi, found) =>
      var (q, a) := Alloc(p, lo, hi, found);
      (q, if a == 0 then held else held + {a})
    case Returns(slot) => (Free(p, slot), held - {slot})
    case Sweeps => (Release(p), held)
    case Drops(slot) => (ReleaseOne(p, slot), held)
  }

  ghost predicate Run(p: Pool, held: set<int>, es: seq<Event>, q: Pool, left: set<int>)
    decreases |es|
  {
    if es == [] then q == p && left == held
    else
      var (next, more) := After(p, held, es[0]);
      Possible(p, es[0]) && Run(next, more, es[1..], q, left)
  }

  ghost predicate Agrees(p: Pool, held: set<int>) {
    PoolOk(p) && forall a :: a in held <==> Live(p, a)
  }

  lemma EventKeeps(p: Pool, held: set<int>, e: Event)
    requires Agrees(p, held) && Possible(p, e)
    ensures var (q, more) := After(p, held, e); Agrees(q, more)
    ensures e.Asks? ==> var a := Alloc(p, e.lo, e.hi, e.found).1; a != 0 ==> a !in held && e.lo <= a <= e.hi
  {
    hide PoolOk, Live, Alloc, Free, Release, ReleaseOne;
    match e {
      case Asks(lo, hi, found) => AllocHandsOut(p, lo, hi, found);
      case Returns(slot) => FreeTakesBack(p, slot);
      case Sweeps => ReleaseKeepsLive(p);
      case Drops(slot) => ReleaseOneKeepsLive(p, slot);
    }
  }

  // Over any run the trampolines that are live are exactly those that are held: none is handed out
  // twice, none that is held is on a free list, and no region goes while one of its is held.
  lemma {:induction false} AnyRunAgrees(p: Pool, held: set<int>, es: seq<Event>, q: Pool, left: set<int>)
    requires Agrees(p, held) && Run(p, held, es, q, left)
    ensures Agrees(q, left)
    decreases |es|
  {
    hide Agrees, After, Possible;
    if es != [] {
      EventKeeps(p, held, es[0]);
      var (next, more) := After(p, held, es[0]);
      AnyRunAgrees(next, more, es[1..], q, left);
    }
  }
}
