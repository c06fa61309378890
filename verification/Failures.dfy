/**
  Two runs of the collector that end badly, each made of its own operations
  and with memory that malloc could have answered with.
*/
module Failures {
  import opened Options
  import opened Words
  import opened Chains
  import opened ObjectLinks
  import opened Pointers
  import opened ObjectTable
  import opened ChainTables
  import opened Roots
  import opened Collector

  const OBJLINKS := 0x8000
  const LARGE := 0x1000
  const TARGET := 0x2000
  const CLIENT := 0x2_0000
  const GARBAGE := 0x3_0000
  const OWNER := 0x4_0000
  const ROOT := 0x5_0000

  // Where malloc puts objects in these runs, and their sizes.
  const PLACES := {LARGE, TARGET, CLIENT, GARBAGE, OWNER}

  function SizeAt(p: nat): nat {
    if p == LARGE then 0x300 else 16
  }

  // Objects and objlinks of these runs are far apart.
  ghost predicate Scattered(d: GcData)
    reads d.objs
  {
    && (forall o :: o in d.objs.Live() || o in d.objs.freeList ==>
         o.obj in PLACES && o.Size(d.w) == SizeAt(o.obj) && OBJLINKS <= o.at < OBJLINKS + 0x100)
    && (forall a :: a in d.objs.unlinkedList ==> OBJLINKS <= a < OBJLINKS + 0x100)
  }

  // The memory at p is used for a new object.
  method Create(d: GcData, p: nat, atomic: bool) returns (ghost o: ObjLink)
    requires d.Sane(0) && d.w == Bits32 && d.objs.unlinkedList != [] && d.totalHeap + SizeAt(p) <= d.maxHeap
    requires Scattered(d) && p in PLACES && d.Usable(p, SizeAt(p))
    modifies d`totalHeap, d`freeBytes, d`bytesAllocd
    modifies d.objs`hroots, d.objs`count, d.objs`minObjAddr, d.objs`maxObjAddr, d.objs`unlinkedList
    ensures d.Sane(0) && Scattered(d) && d.totalHeap <= old(d.totalHeap) + SizeAt(p)
    ensures d.objs.Live() == old(d.objs.Live()) + {o} && d.objs.Table() == old(d.objs.Table()) + {o}
    ensures d.objs.Tracked() == old(d.objs.Tracked()) + multiset{o}
    ensures d.objs.unlinkedList == old(d.objs.unlinkedList[1..])
    ensures o.obj == p && o.Size(Bits32) == SizeAt(p) && o.Atomic(Bits32) == atomic
    ensures d.objs.minObjAddr == if old(d.objs.minObjAddr) >= p then p else old(d.objs.minObjAddr)
    ensures d.objs.maxObjAddr == if p + PAGE > old(d.objs.maxObjAddr) then p + PAGE else old(d.objs.maxObjAddr)
  {
    hide GcData.Sane, ObjHtable.Live, ObjHtable.Table, ObjHtable.LiveBytes, ObjHtable.Tracked, ObjHtable.Avoids;
    assert d.objs.unlinkedList[0] in d.objs.unlinkedList;
    assert forall a :: a in d.objs.unlinkedList[1..] ==> a in d.objs.unlinkedList;
    d.Charge(SizeAt(p), 0);
    o := d.InsertObject(p, SizeAt(p), atomic);
  }

  lemma Room(d: GcData, p: nat)
    requires d.Sane(0) && d.w == Bits32 && Scattered(d) && p in PLACES
    requires forall o :: o in d.objs.Live() || o in d.objs.freeList ==> o.obj != p
    ensures d.Usable(p, SizeAt(p))
  {
    hide ObjHtable.Valid, GcData.Attached, GcData.Ledger;
    forall o | o in Flatten(d.objs.hroots) + d.objs.followList + d.objs.markedList + d.objs.freeList
      ensures o in d.objs.Live() || o in d.objs.freeList
    {
    }
  }

  // A collector of 32-bit words that has nothing yet,
  method Fresh() returns (d: GcData)
    ensures fresh(d) && fresh(d.objs) && fresh(d.dlinks) && fresh(d.fnlzs) && fresh(d.roots)
    ensures d.Sane(0) && d.w == Bits32 && !d.interior && forall a :: d.mem(a) == 0
    ensures d.objs.unlinkedList == [] && d.objs.Live() == {} && d.objs.Table() == {} && d.objs.freeList == []
    ensures d.roots.list == [] && !d.spareFinalizer && !d.hasClients && d.fnlzs.model == map[] && d.ready == []
    ensures d.dlinks.model == map[] && d.dlinks.log2Size == 3 && d.objs.log2Size == 8
    ensures d.totalHeap == 1100 && d.maxHeap == 0x10_0000 && d.objs.Tracked() == multiset{}
  {
    hide GcData.Sane, GcData.Accounts, Pow2;
    Pow2s();
    d := new GcData(Bits32, false, false, false, (a: nat) => 0, 0x10_0000, 0);
    Nothing(d);
  }

  // and one with objlinks, a root and a node for a finalizer.
  method Start() returns (d: GcData)
    ensures fresh(d) && fresh(d.objs) && fresh(d.dlinks) && fresh(d.fnlzs) && fresh(d.roots)
    ensures d.Sane(0) && d.w == Bits32 && !d.interior && forall a :: d.mem(a) == 0
    ensures Scattered(d) && |d.objs.unlinkedList| == 4 && d.objs.Live() == {} && d.objs.Table() == {} && d.objs.freeList == []
    ensures d.roots.list != [] && d.spareFinalizer && !d.hasClients && d.dlinks.model == map[] && d.fnlzs.model == map[] && d.ready == []
    ensures d.dlinks.log2Size == 3 && d.objs.log2Size == 8 && d.objs.Tracked() == multiset{}
    ensures d.totalHeap <= 2000 && d.maxHeap == 0x10_0000
  {
    hide GcData.Sane, GcData.Accounts, ObjHtable.Tracked, ObjHtable.Live, ObjHtable.Table, ObjHtable.Avoids, Pow2;
    d := Fresh();
    AddObjlinks(d);
    AddRoot(d);
    d.Charge(16, 0);
    d.TakeSpare();
  }

  method AddObjlinks(d: GcData)
    requires d.Sane(0) && d.w == Bits32 && d.objs.unlinkedList == [] && d.objs.Live() == {} && d.objs.freeList == []
    requires d.totalHeap + 52 <= d.maxHeap
    modifies d`totalHeap, d`freeBytes, d`blockBytes, d.objs`unlinkedList
    ensures d.Sane(0) && Scattered(d) && |d.objs.unlinkedList| == 4 && d.totalHeap <= old(d.totalHeap) + 52
  {
    hide GcData.Sane, GcData.Accounts, GcData.ObjectBytes, Pow2;
    d.Charge(52, 0);
    NothingThere(d);
    d.AddBlock(OBJLINKS, 4, []);
  }

  lemma NothingThere(d: GcData)
    requires d.w == Bits32 && d.objs.unlinkedList == [] && d.objs.Live() == {} && d.objs.freeList == []
    ensures d.Usable(OBJLINKS, 52)
  {
    forall o | o in Flatten(d.objs.hroots) + d.objs.followList + d.objs.markedList + d.objs.freeList
      ensures o in d.objs.Live()
    {
    }
  }

  method AddRoot(d: GcData)
    requires d.Sane(0) && d.w == Bits32 && d.roots.list == [] && d.totalHeap + 12 <= d.maxHeap
    modifies d`totalHeap, d`freeBytes, d.roots
    ensures d.Sane(0) && d.roots.list != [] && d.totalHeap <= old(d.totalHeap) + 12
  {
    hide GcData.Sane, AlignUp, AlignDown;
    Aligned();
    d.Charge(12, 0);
    var _ := d.LinkRoot(ROOT, ROOT + 16, true, true);
  }

  lemma Pow2s()
    ensures Pow2(8) == 256 && Pow2(3) == 8
  {
  }

  lemma Aligned()
    ensures AlignUp(Bits32, ROOT) == ROOT && AlignDown(Bits32, ROOT + 16) == ROOT + 16
  {
  }

  lemma Nothing(d: GcData)
    requires d.objs.Tracked() == multiset{}
    ensures d.objs.Live() == {} && d.objs.Table() == {} && d.objs.freeList == []
  {
    assert multiset(d.objs.freeList) == multiset{};
    assert |multiset(d.objs.freeList)| == |d.objs.freeList|;
    forall o ensures o !in d.objs.Live() {
      LiveIsRest(Flatten(d.objs.hroots), d.objs.followList, d.objs.markedList, d.objs.freeList, o);
    }
  }

  // All but one of the objects are swept.
  method Sweep(d: GcData, ghost c: ObjLink, ghost x: ObjLink)
    requires d.Sane(0) && d.w == Bits32 && d.objs.Table() == d.objs.Live() == {c, x} && d.objs.freeList == []
    requires c.obj == CLIENT && x.obj == GARBAGE && c.Ok(Bits32)
    requires d.dlinks.model == map[] && d.fnlzs.model == map[] && d.ready == [] && Scattered(d)
    modifies d`markedBytes, d.objs`hroots, d.objs`freeList, d.objs`markedList, d.objs`followList
    modifies d.objs`count, d.objs`minObjAddr, d.objs`maxObjAddr, d.objs`pendingFreeSize
    ensures d.Sane(0) && Scattered(d) && d.objs.Live() == {c} && d.objs.Table() == {} && forall o :: o in d.objs.freeList <==> o == x
    ensures d.objs.minObjAddr == Bits32.Modulus() - 1 && d.objs.maxObjAddr == PAGE
  {
    hide GcData.Sane, ObjHtable.Live, ObjHtable.Table, ObjHtable.Valid, ObjHtable.Tracked, ObjHtable.LiveBytes, GcData.Accounts;
    d.Pieces(0);
    BaseHits(Bits32, d.objs.log2Size, false, c);
    var _, _ := d.objs.Mark(CLIENT, false);
    d.SaneMarked(0);
    d.objs.CountIsTable();
    var _ := d.SweepTable();
    d.Pieces(0);
    d.objs.CountIsTable();
  }

  // No word of memory is the address of a byte of o.
  ghost predicate Unmentioned(mem: Memory, o: ObjLink) {
    forall a: nat :: !o.Covers(Bits32, Load(Bits32, mem, a))
  }

  lemma {:induction false} PointsNowhere(v: View, mem: Memory, interior: bool, begin: nat, end: nat, o: ObjLink)
    requires v.w == Bits32 && Unmentioned(mem, o) && o.Ok(Bits32)
    ensures !v.Pointed(mem, interior, begin, end, o)
    decreases if begin < end then end - begin else 0
  {
    if begin < end {
      PointsNowhere(v, mem, interior, begin + v.w.Bytes(), end, o);
    }
  }

  lemma NoRegionSeed(g: Graph, o: ObjLink)
    requires g.view.w == Bits32 && Unmentioned(g.mem, o) && o.Ok(Bits32)
    ensures forall regions, interior :: !RegionSeed(regions, interior, g, o)
  {
    forall r: Root, interior
      ensures !g.view.Pointed(g.mem, interior, r.begin, r.end, o)
    {
      PointsNowhere(g.view, g.mem, interior, r.begin, r.end, o);
    }
  }

  lemma ZeroUnmentioned(mem: Memory, o: ObjLink)
    requires (forall a :: mem(a) == 0) && o.Ok(Bits32)
    ensures Unmentioned(mem, o)
  {
  }

  twostate lemma NotSeed(d: GcData, new stack: seq<Root>, new g: Graph, new t: set<ObjLink>, new o: ObjLink)
    requires g.view.w == Bits32 && Unmentioned(g.mem, o) && o.Ok(Bits32)
    requires old(!d.hasClients && d.ready == [])
    ensures o !in old(d.Seeds(stack, g, t)) && old(d.Seeds(stack, g, t)) <= t
  {
    hide RegionSeed, Unmentioned, ObjLink.Ok;
    NoRegionSeed(g, o);
  }

  // A collection that finds no pointer at all.
  method CollectAll(d: GcData, ghost c: ObjLink, ghost f: ObjLink)
    requires d.Sane(0) && d.w == Bits32 && !d.interior && (forall a :: d.mem(a) == 0) && d.roots.list != []
    requires d.objs.Live() == {c, f} && c != f && f.Atomic(Bits32) && !d.hasClients && d.ready == []
    requires d.fnlzs.model == map[f.at := Finalizer(f, CLIENT, 1)]
    modifies d, d.objs, d.dlinks, d.fnlzs
    ensures d.Sane(0) && d.objs.Live() == {f} && Finalizer(f, CLIENT, 1) in d.ready
  {
    hide GcData.Sane, GcData.Accounts, GcData.ObjectBytes, GcData.Seeds, ObjHtable.Live, ObjHtable.Tracked, ObjLink.Ok;
    hide Graph.Reach, DueOf, View.Bounded, Hits, Unmentioned, Pow2;
    var completed;
    ghost var g, seeds, fin, settled;
    completed, g, seeds, fin, settled := d.Collect([], false);
    ZeroUnmentioned(g.mem, c);
    ZeroUnmentioned(g.mem, f);
    NotSeed(d, [], g, {c, f}, c);
    NotSeed(d, [], g, {c, f}, f);
    assert seeds == {};
    g.ReachNone({c, f});
    FinalizerFound(f);
    assert fin == {f};
    var g2 := Graph(g.view, d.mem, false);
    g2.ReachClosed({c, f}, {f});
    g2.ReachLeast({c, f}, {f}, {f});
    assert d.objs.Live() == {f};
  }

  lemma FinalizerFound(f: ObjLink)
    ensures forall dead :: f in dead ==> Finalizable(map[f.at := Finalizer(f, CLIENT, 1)], dead) == {f}
  {
    forall dead | f in dead
      ensures Finalizable(map[f.at := Finalizer(f, CLIENT, 1)], dead) == {f}
    {
      assert f.at in map[f.at := Finalizer(f, CLIENT, 1)];
    }
  }

  // Up to the registration: of two objects one has been swept and the other is
  // marked, and a third is new.
  method Prepare(d: GcData) returns (ghost c: ObjLink, ghost f: ObjLink)
    requires d.Sane(0) && d.w == Bits32 && d.totalHeap <= 2000 && d.maxHeap == 0x10_0000
    requires Scattered(d) && |d.objs.unlinkedList| == 4 && d.objs.Live() == {} && d.objs.Table() == {} && d.objs.freeList == []
    requires d.dlinks.model == map[] && d.fnlzs.model == map[] && d.ready == []
    modifies d`totalHeap, d`freeBytes, d`bytesAllocd, d`markedBytes, d.objs
    ensures d.Sane(0) && d.objs.Live() == {c, f} && d.objs.Table() == {f}
    ensures c.obj == CLIENT && f.obj == OWNER && f.Size(Bits32) == 16 && f.Atomic(Bits32)
    ensures d.objs.minObjAddr == OWNER && d.objs.maxObjAddr == OWNER + PAGE
  {
    hide GcData.Sane, ObjHtable.Live, ObjHtable.Table, ObjHtable.Valid, ObjHtable.Tracked, ObjHtable.Avoids, ObjLink.Size, ObjLink.Atomic;
    Room(d, CLIENT);
    c := Create(d, CLIENT, true);
    Room(d, GARBAGE);
    ghost var x := Create(d, GARBAGE, true);
    LiveOk(d, c);
    Sweep(d, c, x);
    Room(d, OWNER);
    f := Create(d, OWNER, true);
  }

  lemma LiveOk(d: GcData, c: ObjLink)
    requires d.Sane(0) && c in d.objs.Live()
    ensures c.Ok(d.w)
  {
    hide ObjHtable.Live, ObjHtable.Valid, GcData.Attached, GcData.Ledger, ObjLink.Ok;
    d.objs.LiveSound();
  }

  /**
    Client data lost.  A sweep has reset the bounds of the table while the
    object at CLIENT is on the marked list; a finalizer that is registered now
    with this object as its client data does not set has_client_ptrs.  When the
    collector finds nothing else that points at either object, the owner's
    finalizer becomes ready, and the object it will be given is garbage.
  */
  method ClientLost() returns (d: GcData)
    ensures d.Sane(0) && exists f :: f in d.ready && f.client == CLIENT && f.link.obj == OWNER
    ensures forall o :: o in d.objs.Live() ==> !o.Covers(Bits32, CLIENT)
  {
    hide GcData.Sane, GcData.Accounts, ObjHtable.Live, ObjHtable.Table, ObjHtable.Valid, DueOf;
    d := Start();
    ghost var c, f;
    c, f := Prepare(d);
    d.Pieces(0);
    var owner := d.objs.Get(OWNER);
    assert f.Covers(Bits32, OWNER);
    assert owner == Some(f);
    var _ := d.AddDelFinalizer(owner.value, 1, CLIENT);
    CollectAll(d, c, f);
    assert Finalizer(f, CLIENT, 1) in d.ready;
  }

  // The last word of the large object, and a word of the stack.
  const LINK := 0x12FC
  const STACK := 0x6_0000

  // The large object and another one, as the first has a weak link in its last
  // word to the second.
  ghost predicate Linked(d: GcData, o: ObjLink, t: ObjLink)
    reads d, d.objs, d.dlinks, d.fnlzs, d.roots
  {
    && d.Sane(0) && d.w == Bits32 && !d.interior && d.roots.list != [] && !d.hasClients && d.fnlzs.model == map[] && d.ready == []
    && IsLarge(o) && IsTarget(t)
    && d.dlinks.log2Size == 3 && d.dlinks.model == map[Hide(Bits32, LINK) := t]
  }

  predicate IsLarge(o: ObjLink) {
    0 < o.at && o.obj == LARGE && o.tagged == 0x300
  }

  predicate IsTarget(t: ObjLink) {
    t.Ok(Bits32) && t.obj == TARGET && t.Size(Bits32) == 16 && t.Atomic(Bits32)
  }

  // GC_malloc for both,
  method TwoObjects() returns (d: GcData, ghost o: ObjLink, ghost t: ObjLink)
    ensures fresh(d) && fresh(d.objs) && fresh(d.dlinks) && fresh(d.fnlzs) && fresh(d.roots)
    ensures d.Sane(0) && d.w == Bits32 && !d.interior && d.roots.list != [] && !d.hasClients && d.fnlzs.model == map[] && d.ready == []
    ensures d.dlinks.log2Size == 3 && d.dlinks.model == map[] && IsLarge(o) && IsTarget(t)
    ensures d.objs.Live() == d.objs.Table() == {o, t} && d.objs.freeList == [] && d.objs.Tracked() == multiset{o, t} && d.objs.log2Size == 8
    ensures d.totalHeap <= 3000 && d.maxHeap == 0x10_0000
  {
    hide GcData.Sane, ObjHtable.Live, ObjHtable.Table, ObjHtable.Tracked, ObjHtable.Avoids;
    d := Start();
    Room(d, LARGE);
    o := Create(d, LARGE, false);
    Room(d, TARGET);
    t := Create(d, TARGET, true);
    LiveOk(d, o);
    LiveOk(d, t);
  }

  // and GC_general_register_disappearing_link with the node from malloc and any
  // stir of the seed.
  method RegisterLink(d: GcData, ghost o: ObjLink, ghost t: ObjLink, stir: nat)
    requires d.Sane(0) && d.w == Bits32 && !d.interior && d.roots.list != [] && !d.hasClients && d.fnlzs.model == map[] && d.ready == []
    requires d.dlinks.log2Size == 3 && d.dlinks.model == map[] && IsLarge(o) && IsTarget(t)
    requires d.objs.Live() == d.objs.Table() == {o, t} && d.totalHeap <= 3000 && d.maxHeap == 0x10_0000
    modifies d`totalHeap, d`freeBytes, d`spareDlinks, d.dlinks`hroots, d.dlinks`seed, d.dlinks`count, d.dlinks`model
    ensures Linked(d, o, t)
  {
    hide GcData.Sane, ObjHtable.Live, ObjHtable.Table, ObjHtable.Valid;
    d.Pieces(0);
    var target := d.objs.Get(TARGET);
    assert t.Covers(Bits32, TARGET);
    assert target == Some(t);
    d.Charge(12, 0);
    var _ := d.AddDlink(Hide(Bits32, LINK), target.value, FromMalloc, stir);
  }

  // While the stack holds the small object, a collection finds the large one
  // dead.
  method CollectLarge(d: GcData, ghost o: ObjLink, ghost t: ObjLink)
    requires Linked(d, o, t) && d.objs.Live() == {o, t} && d.objs.freeList == []
    requires d.objs.Tracked() == multiset{o, t} && d.objs.log2Size == 8
    requires forall a: nat :: d.mem(a) == if a == STACK || a == LINK then TARGET else 0
    modifies d, d.objs, d.dlinks`hroots, d.dlinks`count, d.dlinks`model, d.fnlzs`hroots, d.fnlzs`count, d.fnlzs`model
    ensures Linked(d, o, t) && d.objs.Live() == {t} && forall p :: p in d.objs.freeList <==> p == o
  {
    hide GcData.Sane, GcData.Accounts, GcData.ObjectBytes, GcData.Seeds, ObjHtable.Live, ObjHtable.Tracked, ObjLink.Ok;
    hide Graph.Reach, DueOf, View.Bounded, Hits, Unmentioned, Pow2, GcData.Held, Finalizable, IsLarge;
    StackHolds(d, t);
    var completed;
    ghost var g, seeds, fin, settled;
    completed, g, seeds, fin, settled := d.Collect([Root(STACK, STACK + 4)], false);
    LargeUnmentioned(g.mem, o);
    NotSeed(d, [Root(STACK, STACK + 4)], g, {o, t}, o);
    d.HeldSeed([Root(STACK, STACK + 4)], g, {o, t}, t);
    assert seeds == {t};
    AtomicReach(g, {o, t}, t);
    Graph(g.view, d.mem, false).ReachNone({o, t});
    NoneFinalizable();
    assert d.objs.Live() == {t};
    SmallTable6();
    assert settled;
  }

  lemma NoneFinalizable()
    ensures forall dead :: Finalizable(map[], dead) == {}
  {
  }

  lemma SmallTable6()
    ensures Pow2(6) == 64
  {
  }

  lemma StackHolds(d: GcData, t: ObjLink)
    requires d.w == Bits32 && d.mem(STACK) == TARGET == t.obj && Hide(Bits32, STACK) !in d.dlinks.model
    ensures d.Held([Root(STACK, STACK + 4)], t)
  {
    assert d.Holds(Root(STACK, STACK + 4), 0, t);
  }

  lemma LargeUnmentioned(mem: Memory, o: ObjLink)
    requires IsLarge(o) && forall a: nat :: mem(a) == 0 || mem(a) == TARGET
    ensures Unmentioned(mem, o)
  {
  }

  // An object without pointers reaches itself only.
  lemma AtomicReach(g: Graph, all: set<ObjLink>, t: ObjLink)
    requires t in all && t.Atomic(g.view.w)
    ensures g.Reach(all, {t}) == {t}
  {
    hide Graph.Reach;
    g.ReachClosed(all, {t});
    g.ReachLeast(all, {t}, {t});
  }

  // All pending memory goes back to malloc, and the link stays.
  method FreeLarge(d: GcData, ghost o: ObjLink, ghost t: ObjLink)
    requires Linked(d, o, t) && d.objs.Live() == {t} && forall p :: p in d.objs.freeList <==> p == o
    modifies d`freeBytes, d.objs`freeList, d.objs`unlinkedList, d.objs`pendingFreeSize, d.dlinks`hroots, d.dlinks`count, d.dlinks`model
    ensures Linked(d, o, t) && d.objs.Live() == {t} && d.objs.freeList == []
  {
    hide GcData.Sane, ObjHtable.Live, ObjHtable.LiveBytes, ObjHtable.PendingExact, Sought, Bytes;
    d.Pieces(0);
    LinkMissed(o.at, d.dlinks.seed);
    ghost var pending := d.objs.freeList;
    assert o == ObjLink(o.at, LARGE, 0x300) && d.dlinks.Place() == Placement(Bits32, PAGE, d.dlinks.seed, 3);
    assert !SoughtIn(d.dlinks.Place(), pending, Hide(Bits32, LINK));
    var n := d.FreePending(0xFFFF_FFFF, 0);
    d.FreeBelow(0);
    assert n == |pending| && pending[..n] == pending;
  }

  // The next collection finds nothing.
  method CollectTarget(d: GcData, ghost o: ObjLink, ghost t: ObjLink)
    requires Linked(d, o, t) && d.objs.Live() == {t} && d.objs.freeList == []
    requires forall a: nat :: d.mem(a) == 0 || d.mem(a) == 7
    modifies d, d.objs, d.dlinks`hroots, d.dlinks`count, d.dlinks`model, d.fnlzs`hroots, d.fnlzs`count, d.fnlzs`model
    ensures d.Sane(0) && d.objs.Live() == {} && forall p :: p in d.objs.freeList ==> p == t
    ensures forall a: nat :: d.mem(a) == if a == LINK then 0 else old(d.mem)(a)
  {
    hide GcData.Sane, GcData.Accounts, GcData.ObjectBytes, GcData.Seeds, GcData.Readied, ObjHtable.Live, ObjHtable.Tracked, ObjLink.Ok;
    hide Graph.Reach, DueOf, View.Bounded, Hits, Unmentioned, Pow2, Finalizable, IsLarge;
    var completed;
    ghost var g, seeds, fin, settled;
    completed, g, seeds, fin, settled := d.Collect([], false);
    TargetUnmentioned(g.mem, t);
    NotSeed(d, [], g, {t}, t);
    assert seeds == {};
    g.ReachNone({t});
    Graph(g.view, d.mem, false).ReachNone({t});
    NoneFinalizable();
  }

  lemma TargetUnmentioned(mem: Memory, t: ObjLink)
    requires IsTarget(t) && forall a: nat :: mem(a) == 0 || mem(a) == 7
    ensures Unmentioned(mem, t)
  {
  }

  /**
    A weak link left behind, whatever seed the table of links had.  The last
    word of an object of three pages is a weak link to another object; the large
    object is found dead and freed, and its memory put to another use.  When the
    other object is found dead, the collector clears that word all the same.
  */
  method LinkLeftBehind(stir: nat) returns (d: GcData)
    ensures d.Sane(0) && forall p :: p in d.objs.Live() || p in d.objs.freeList ==> !p.Covers(Bits32, LINK)
    ensures forall a: nat :: d.mem(a) == if a == LINK then 0 else if LARGE <= a < LARGE + 0x300 then 7 else 0
  {
    hide ObjHtable.Live, ObjHtable.Tracked, IsLarge, GcData.Sane;
    ghost var o, t;
    d, o, t := TwoObjects();
    RegisterLink(d, o, t, stir);
    d.mem := (a: nat) => if a == STACK || a == LINK then TARGET else 0;
    CollectLarge(d, o, t);
    FreeLarge(d, o, t);
    d.mem := (a: nat) => if LARGE <= a < LARGE + 0x300 then 7 else 0;
    CollectTarget(d, o, t);
  }
}
