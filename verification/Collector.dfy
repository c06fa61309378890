/**
  The collector of tinygc.c around its object table: root scanning, weak links,
  finalizers, the sweep and the byte accounts, in the configuration with weak
  links and finalizers and without the language-specific mark descriptors.
*/
module Collector {
  import opened Options
  import opened Words
  import opened Chains
  import opened ObjectLinks
  import opened Pointers
  import opened ObjectTable
  import opened ChainTables
  import opened Roots

  datatype Finalizer = Finalizer(link: ObjLink, client: nat, fn: nat)

  // GC_HIDE_POINTER, its own inverse.
  function Hide(w: Width, a: nat): nat
    requires a < w.Modulus()
  {
    w.Modulus() - 1 - a
  }

  // A table of 2^log2 buckets and its end mark.
  function TableBytes(w: Width, log2: nat): nat {
    (Pow2(log2) + 1) * w.Bytes()
  }

  lemma AlignedHidden(w: Width, link: nat)
    requires link < w.Modulus() && link % w.Bytes() == 0
    ensures 0 < Hide(w, link)
  {
  }

  // A table that could be allocated has an index in range.
  lemma SmallTable(w: Width, log2: nat)
    ensures log2 > 8 * w.Bytes() ==> TableBytes(w, log2) >= w.Tag()
  {
    if log2 > 8 * w.Bytes() {
      hide Pow2;
      WordsArePow2(w);
      Pow2Sum(8 * w.Bytes(), log2 - 8 * w.Bytes());
    }
  }

  // GC_RANDOM_SEED mixes counters; any word will do.
  method RandomSeed() returns (seed: nat)
  {
    seed := *;
  }

  // n nodes of three words: weak links, roots, objlinks.
  function ThreeWords(w: Width, n: nat): nat {
    if w == Bits32 then 12 * n else 24 * n
  }

  // n nodes of four words: finalizers.
  function FourWords(w: Width, n: nat): nat {
    if w == Bits32 then 16 * n else 32 * n
  }

  // What a program can ask of the collector; Write is the program's own doing.
  datatype Request =
    | Allocate(size: nat, atomic: bool)
    | Gc(mayStop: bool)
    | Link(link: nat, obj: nat)
    | Unlink(unlinked: nat)
    | Finalize(object_: nat, fn: nat, client: nat)
    | RunFinalizer
    | BaseOf(addr: nat)
    | AddRoot(begin: nat, end: nat)
    | RemoveRoot(low: nat, high: nat)
    | ExcludeRoot(from: nat, to: nat)
    | Expand(bytes: nat)
    | RaiseMax(max: nat)
    | Write(content: Memory)

  // Where a registration takes the node for its table from.
  datatype NodeSource = FromSpare | FromMalloc | NoNode

  // GC_SUCCESS, GC_DUPLICATE and GC_NO_MEMORY; Ignored for addresses outside of
  // all objects, BadPointer where the program aborts.
  datatype Registration = Success | Duplicate | NoMemory | Ignored | BadPointer

  // What GC_fnlz_precollect marks for f besides its object.
  predicate ClientSeed(f: Finalizer, g: Graph, o: ObjLink) {
    f.client != 0 && Hits(g.view.w, g.view.log2, g.interior, f.client, o)
  }

  ghost predicate ReadySeed(fs: seq<Finalizer>, g: Graph, o: ObjLink) {
    exists f :: f in fs && (f.link.obj == o.obj || ClientSeed(f, g, o))
  }

  ghost predicate TableSeed(m: map<nat, Finalizer>, g: Graph, o: ObjLink) {
    exists k :: k in m && ClientSeed(m[k], g, o)
  }

  ghost predicate RegionSeed(regions: seq<Root>, interior: bool, g: Graph, o: ObjLink) {
    exists r :: r in regions && g.view.Pointed(g.mem, interior, r.begin, r.end, o)
  }

  // The objects whose finalizers become ready: those left unmarked.
  ghost function Finalizable(m: map<nat, Finalizer>, dead: set<ObjLink>): set<ObjLink> {
    set k | k in m && m[k].link in dead :: m[k].link
  }

  lemma FinalizableWithin(m: map<nat, Finalizer>, dead: set<ObjLink>)
    ensures Finalizable(m, dead) <= dead
    ensures forall k :: k in m && m[k].link in dead ==> m[k].link in Finalizable(m, dead)
  {
  }

  // The finalizers of a table, which are kept under the addresses of their
  // objects' objlinks, and those of a ready list.
  ghost function DueOf(m: map<nat, Finalizer>, ready: seq<Finalizer>): multiset<Finalizer> {
    multiset(ready) + multiset(set k | k in m && m[k].link.at == k :: m[k])
  }

  // A finalizer that goes from the table to the list stays due.
  lemma DueMoves(m: map<nat, Finalizer>, ready: seq<Finalizer>, f: Finalizer)
    requires f.link.at in m && m[f.link.at] == f
    ensures DueOf(m - {f.link.at}, [f] + ready) == DueOf(m, ready)
  {
    DueRemoved(m, ready, f.link.at);
    assert multiset([f] + ready) == multiset{f} + multiset(ready);
  }

  lemma DueRemoved(m: map<nat, Finalizer>, ready: seq<Finalizer>, k: nat)
    requires k in m && m[k].link.at == k
    ensures DueOf(m - {k}, ready) + multiset{m[k]} == DueOf(m, ready)
  {
    var n := m - {k};
    var a, b := set i | i in m && m[i].link.at == i :: m[i], set i | i in n && n[i].link.at == i :: n[i];
    assert a == b + {m[k]} by {
      forall f
        ensures f in a <==> f in b + {m[k]}
      {
        if f in a && f != m[k] {
          assert f.link.at in n && n[f.link.at] == f;
        }
        if f in b {
          assert f.link.at in m && m[f.link.at] == f;
        }
        if f == m[k] {
          assert k in m && m[k] == f;
        }
      }
    }
    assert m[k] !in b;
    assert multiset(a) == multiset(b) + multiset{m[k]};
  }

  ghost function One(f: Option<Finalizer>): multiset<Finalizer> {
    if f == None then multiset{} else multiset{f.value}
  }

  // A registration replaces what the table has for the object.
  lemma DueSet(m: map<nat, Finalizer>, ready: seq<Finalizer>, f: Finalizer)
    requires f.link.at in m ==> m[f.link.at].link.at == f.link.at
    ensures var had := if f.link.at in m then Some(m[f.link.at]) else None;
      DueOf(m[f.link.at := f], ready) + One(had) == DueOf(m, ready) + multiset{f}
  {
    hide DueOf;
    var k := f.link.at;
    var m1 := m[k := f];
    DueRemoved(m1, ready, k);
    assert m1 - {k} == m - {k};
    if k in m {
      DueRemoved(m, ready, k);
    } else {
      assert m - {k} == m;
    }
  }

  ghost function Links(fs: seq<Finalizer>): seq<ObjLink> {
    if fs == [] then [] else Links(fs[..|fs| - 1]) + [fs[|fs| - 1].link]
  }

  lemma BytesNext(w: Width, s: seq<ObjLink>, n: nat)
    requires n < |s|
    ensures Bytes(w, s[..n + 1]) == Bytes(w, s[..n]) + s[n].Size(w)
  {
    assert s[..n + 1] == s[..n] + [s[n]];
    BytesConcat(w, s[..n], [s[n]]);
    BytesHead(w, [s[n]]);
  }

  // The tags of k atomic objects, added up.
  function TagBits(w: Width, k: nat): nat {
    k * w.Tag()
  }

  lemma BelowTag(w: Width, bytes: nat)
    ensures bytes % w.Tag() == bytes <==> bytes < w.Tag()
  {
  }

  lemma TaggedSize(w: Width, at: nat, ptr: nat, size: nat, atomic: bool)
    requires 0 < at && 0 < size < w.Tag() && 0 < ptr && ptr % w.Bytes() == 0 && ptr + PAGE < w.Modulus() && ptr + size <= w.Modulus()
    ensures var o := ObjLink(at, ptr, Tagged(w, size, atomic)); o.Ok(w) && o.Size(w) == size && o.Atomic(w) == atomic
  {
  }

  lemma NoTags(w: Width)
    ensures TagBits(w, 0) == 0
  {
  }

  lemma OneMoreTag(w: Width, k: nat, o: ObjLink)
    requires o.Ok(w)
    ensures TagBits(w, k + if o.Atomic(w) then 1 else 0) + o.Size(w) == TagBits(w, k) + o.tagged
  {
  }

  // A sum of tagged sizes, as a word, without tags.
  function Masked(w: Width, total: nat): (r: nat)
    ensures r < w.Tag()
  {
    total % w.Modulus() % w.Tag()
  }

  lemma BytesSuffix(w: Width, list: seq<ObjLink>, n: nat)
    requires n <= |list|
    ensures Bytes(w, list[n..]) <= Bytes(w, list)
  {
    BytesConcat(w, list[..n], list[n..]);
    assert list == list[..n] + list[n..];
  }

  // pending_free_size -= totalsize & ~mask is exact while the sum stays below
  // the tag.
  lemma PendingTaken(w: Width, list: seq<ObjLink>, n: nat, total: nat, tags: nat)
    requires n <= |list| && total == Bytes(w, list[..n]) + TagBits(w, tags)
    ensures Bytes(w, list) < w.Tag() ==> Sub(w, Bytes(w, list), Masked(w, total)) == Bytes(w, list[n..])
  {
    hide Bytes, Masked, TagBits;
    BytesConcat(w, list[..n], list[n..]);
    assert list == list[..n] + list[n..];
    if Bytes(w, list) < w.Tag() {
      MaskedExact(w, Bytes(w, list[..n]), tags);
    }
  }

  lemma MaskedExact(w: Width, a: nat, k: nat)
    requires a < w.Tag()
    ensures Masked(w, a + TagBits(w, k)) == a
  {
    MaskTags(w, a, k);
    BelowTag(w, a);
  }

  lemma NoTaggedLinks(fs: seq<Finalizer>)
    requires fs == []
    ensures TaggedSum(Links(fs)) == 0
  {
  }

  lemma LinksNext(fs: seq<Finalizer>, f: Finalizer)
    ensures TaggedSum(Links(fs + [f])) == TaggedSum(Links(fs)) + f.link.tagged
  {
    assert (fs + [f])[..|fs|] == fs;
    TaggedSumConcat(Links(fs), [f.link]);
    TaggedSumOne(f.link);
  }

  // The hidden addresses of the words of an object, from its last word's to
  // its first's.
  function LowHidden(w: Width, o: ObjLink): int {
    w.Modulus() - 1 - (o.obj + (o.Size(w) - o.Size(w) % w.Bytes()) - w.Bytes())
  }

  function HighHidden(w: Width, o: ObjLink): int {
    w.Modulus() - 1 - o.obj
  }

  // Hidden address k is that of a word of o, and among those that are looked for
  // when o is freed: in the bucket of the last page and in that of the one
  // before.
  predicate Sought(p: Placement, o: ObjLink, k: nat) {
    var low, high := LowHidden(p.w, o), HighHidden(p.w, o);
    && p.Ok() && o.Ok(p.w) && low <= k <= high
    && (p.Bucket(k) == p.Bucket(high) || (low / PAGE != high / PAGE && p.Bucket(k) == p.Bucket(high - PAGE)))
  }

  ghost predicate SoughtIn(p: Placement, freed: seq<ObjLink>, k: nat) {
    exists o :: o in freed && Sought(p, o, k)
  }

  lemma NothingSought(p: Placement)
    ensures forall k :: !SoughtIn(p, [], k)
  {
  }

  lemma SoughtNext(p: Placement, s: seq<ObjLink>, n: nat, k: nat)
    requires n < |s|
    ensures SoughtIn(p, s[..n + 1], k) <==> SoughtIn(p, s[..n], k) || Sought(p, s[n], k)
  {
    hide Sought;
    assert s[..n + 1] == s[..n] + [s[n]];
  }

  // That is all there are when the words' hidden addresses lie on two pages,
  lemma TwoPagesSought(p: Placement, o: ObjLink, k: nat)
    requires p.Ok() && p.grain == PAGE && o.Ok(p.w) && HighHidden(p.w, o) / PAGE - LowHidden(p.w, o) / PAGE <= 1
    ensures Sought(p, o, k) <==> LowHidden(p.w, o) <= k <= HighHidden(p.w, o)
  {
  }

  // but on three pages of one block of four, in a table of the first size and
  // whatever its seed, they are all but those on the lowest page:
  lemma ThreePagesSought(o: ObjLink, seed: nat, k: nat)
    requires o.Ok(Bits32) && HighHidden(Bits32, o) / PAGE == LowHidden(Bits32, o) / PAGE + 2 && LowHidden(Bits32, o) / PAGE % 4 < 2
    ensures Sought(Placement(Bits32, PAGE, seed, 3), o, k) <==>
      LowHidden(Bits32, o) <= k <= HighHidden(Bits32, o) && k / PAGE != LowHidden(Bits32, o) / PAGE
  {
    hide Placement.Bucket;
    var low, high := LowHidden(Bits32, o), HighHidden(Bits32, o);
    if low <= k <= high {
      var block, i := low / PAGE / 4, low / PAGE % 4;
      BlockOfFour(seed, block, i, i + 1);
      BlockOfFour(seed, block, i, i + 2);
      var p := Placement(Bits32, PAGE, seed, 3);
      if k / PAGE == high / PAGE {
        SameBucket(p, k, high);
      } else if k / PAGE == (high - PAGE) / PAGE {
        SameBucket(p, k, high - PAGE);
      }
    }
  }

  lemma SameBucket(p: Placement, k: nat, l: nat)
    requires p.Ok() && k / p.grain == l / p.grain
    ensures p.Bucket(k) == p.Bucket(l)
  {
  }

  // of the 768 bytes at 0x1000 the link in the last word stays.
  lemma LinkMissed(at: nat, seed: nat)
    requires 0 < at
    ensures var p, o, k := Placement(Bits32, PAGE, seed, 3), ObjLink(at, 0x1000, 0x300), Hide(Bits32, 0x12FC);
      && p.Ok() && o.Ok(Bits32) && o.obj <= Hide(Bits32, k) < o.obj + o.Size(Bits32)
      && LowHidden(Bits32, o) <= k <= HighHidden(Bits32, o) && !Sought(p, o, k)
  {
    hide Sought;
    ThreePagesSought(ObjLink(at, 0x1000, 0x300), seed, Hide(Bits32, 0x12FC));
  }

  // The first hash of a page with an index of three bits.
  function Mixed(page: nat, seed: nat): nat {
    Xor(page, seed) * 0x9E3779B1 % 0x1_0000_0000 / 0x2000_0000
  }

  lemma FirstHash(page: nat, k: nat, seed: nat)
    requires k / PAGE == page
    ensures Placement(Bits32, PAGE, seed, 3).Bucket(k) == Mixed(page, seed)
  {
    hide Shr, Xor, Pow2;
    SmallPow2();
    var a := Xor(page, seed) * 0x9E3779B1 % 0x1_0000_0000;
    ShrIs(a, 29, a / 0x2000_0000);
  }

  // Pages that differ in the last two bits only never share a bucket.
  lemma BlockOfFour(seed: nat, block: nat, i: nat, j: nat)
    requires i < j < 4
    ensures forall k, l :: k / PAGE == 4 * block + i && l / PAGE == 4 * block + j ==>
      Placement(Bits32, PAGE, seed, 3).Bucket(k) != Placement(Bits32, PAGE, seed, 3).Bucket(l)
  {
    hide Placement.Bucket, Mixed;
    XorLastTwo(block, i, seed);
    XorLastTwo(block, j, seed);
    SpreadWide(seed, block, i, j);
    forall k, l | k / PAGE == 4 * block + i && l / PAGE == 4 * block + j
      ensures Placement(Bits32, PAGE, seed, 3).Bucket(k) != Placement(Bits32, PAGE, seed, 3).Bucket(l)
    {
      FirstHash(4 * block + i, k, seed);
      FirstHash(4 * block + j, l, seed);
    }
  }

  lemma SpreadWide(seed: nat, block: nat, i: nat, j: nat)
    requires i < j < 4
    ensures Mixed(4 * block + i, seed) != Mixed(4 * block + j, seed)
  {
    hide Xor, LastTwo;
    XorLastTwo(block, i, seed);
    XorLastTwo(block, j, seed);
    OtherLastTwo(i, j, seed);
    Spread(Xor(block, seed / 4), LastTwo(i, seed), LastTwo(j, seed));
  }

  // The last two bits of i ^ seed.
  function LastTwo(i: nat, seed: nat): nat {
    (i / 2 + seed / 2) % 2 * 2 + (i + seed) % 2
  }

  lemma OtherLastTwo(i: nat, j: nat, seed: nat)
    requires i < j < 4
    ensures LastTwo(i, seed) < 4 && LastTwo(j, seed) < 4 && LastTwo(i, seed) != LastTwo(j, seed)
  {
    if LastTwo(i, seed) == LastTwo(j, seed) {
      SameParity(i / 2, j / 2, seed / 2);
      SameParity(i, j, seed);
    }
  }

  lemma SameParity(a: nat, b: nat, c: nat)
    requires (a + c) % 2 == (b + c) % 2
    ensures a % 2 == b % 2
  {
  }

  lemma XorHalf(a: nat, b: nat)
    ensures Xor(a, b) == 2 * Xor(a / 2, b / 2) + (a + b) % 2
  {
  }

  lemma XorLastTwo(block: nat, i: nat, seed: nat)
    requires i < 4
    ensures Xor(4 * block + i, seed) == 4 * Xor(block, seed / 4) + LastTwo(i, seed)
  {
    hide Xor, LastTwo;
    XorHalf(4 * block + i, seed);
    XorHalf(2 * block + i / 2, seed / 2);
    Halves(block, i, seed);
  }

  lemma Halves(block: nat, i: nat, seed: nat)
    requires i < 4
    ensures (4 * block + i) / 2 == 2 * block + i / 2 && (2 * block + i / 2) / 2 == block && seed / 2 / 2 == seed / 4
    ensures LastTwo(i, seed) == (2 * block + i / 2 + seed / 2) % 2 * 2 + (4 * block + i + seed) % 2
  {
    EvenMore(block, i / 2 + seed / 2);
    EvenMore(2 * block, i + seed);
  }

  lemma EvenMore(a: nat, b: nat)
    ensures (2 * a + b) % 2 == b % 2
  {
  }

  // Multiples of the factor that are at most three factors apart are at least
  // an eighth of all words apart.
  lemma Spread(high: nat, i: nat, j: nat)
    requires i < 4 && j < 4 && i != j
    ensures (4 * high + i) * 0x9E3779B1 % 0x1_0000_0000 / 0x2000_0000 != (4 * high + j) * 0x9E3779B1 % 0x1_0000_0000 / 0x2000_0000
  {
    var base := 4 * high * 0x9E3779B1;
    WholeWords(base, i * 0x9E3779B1);
    WholeWords(base, j * 0x9E3779B1);
    if i < j {
      SpreadFrom(base % 0x1_0000_0000, i, j);
    } else {
      SpreadFrom(base % 0x1_0000_0000, j, i);
    }
  }

  lemma WholeWords(a: nat, b: nat)
    ensures (a + b) % 0x1_0000_0000 == (a % 0x1_0000_0000 + b) % 0x1_0000_0000
  {
  }

  lemma SpreadFrom(base: nat, i: nat, j: nat)
    requires base < 0x1_0000_0000 && i < j < 4
    ensures (base + i * 0x9E3779B1) % 0x1_0000_0000 / 0x2000_0000 != (base + j * 0x9E3779B1) % 0x1_0000_0000 / 0x2000_0000
  {
    var a, b := (base + i * 0x9E3779B1) % 0x1_0000_0000, (base + j * 0x9E3779B1) % 0x1_0000_0000;
    assert a - b >= 0x2000_0000 || b - a >= 0x2000_0000 by {
      if j == i + 1 {
        assert b == a + 0x9E3779B1 || b == a + 0x9E3779B1 - 0x1_0000_0000;
      } else if j == i + 2 {
        assert b == a + 0x3C6EF362 || b == a + 0x3C6EF362 - 0x1_0000_0000;
      } else {
        assert b == a + 0xDAA66D13 || b == a + 0xDAA66D13 - 0x1_0000_0000;
      }
    }
  }

  lemma SmallPow2()
    ensures Pow2(29) == 0x2000_0000
  {
    hide Pow2;
    assert Pow2(14) == 0x4000 && Pow2(15) == 0x8000 by {
      TwoPowers();
    }
    Pow2Sum(14, 15);
  }

  lemma TwoPowers()
    ensures Pow2(14) == 0x4000 && Pow2(15) == 0x8000
  {
  }

  lemma {:induction false} ShrIs(a: nat, n: nat, b: nat)
    requires b * Pow2(n) <= a < (b + 1) * Pow2(n)
    ensures Shr(a, n) == b
  {
    if n > 0 {
      HalfBetween(a, b, Pow2(n - 1));
      ShrIs(a / 2, n - 1, b);
    }
  }

  lemma HalfBetween(a: nat, b: nat, q: nat)
    requires b * (2 * q) <= a < (b + 1) * (2 * q)
    ensures b * q <= a / 2 < (b + 1) * q
  {
    assert b * (2 * q) == 2 * (b * q) && (b + 1) * (2 * q) == 2 * ((b + 1) * q);
  }

  class GcData {
    const w: Width
    // GC_all_interior_pointers
    const interior: bool
    const objs: ObjHtable
    // dlink_htable: from hidden link address to the object it points at.
    const dlinks: ChainTable<ObjLink>
    // fnlz_htable: from objlink address to the finalizer of the object.
    const fnlzs: ChainTable<Finalizer>
    var ready: seq<Finalizer>
    var hasClients: bool
    const roots: DataRoots
    // The program's memory.
    var mem: Memory

    // The byte accounts.
    var totalHeap: nat
    var freeBytes: nat
    var maxHeap: nat
    var expandedHeap: nat
    var markedBytes: nat
    var bytesAllocd: nat
    var allocdBefore: nat
    var gcNo: nat
    var recycling: bool
    // GC_dont_expand and GC_dont_gc
    const dontExpand: bool
    const dontGc: bool
    // Nodes kept for reuse: dlink_htable.free_list and fnlz_htable.single_free.
    var spareDlinks: nat
    var spareFinalizer: bool
    // What the blocks of objlinks and the stack root take.
    var blockBytes: nat
    const stackBytes: nat

    constructor (w: Width, interior: bool, dontExpand: bool, dontGc: bool, mem: Memory, maxHeap: nat, stackBytes: nat)
      requires TableBytes(w, 8) + 2 * TableBytes(w, 3) + stackBytes <= maxHeap < w.Modulus()
      ensures fresh(this) && fresh(objs) && fresh(dlinks) && fresh(fnlzs) && fresh(roots)
      ensures Valid() && Accounts() && objs.Tracked() == multiset{} && objs.unlinkedList == [] && objs.log2Size == 8 && this.maxHeap == maxHeap && freeBytes == 0
      ensures this.w == w && this.interior == interior && this.mem == mem && !hasClients && !spareFinalizer
      ensures dlinks.model == map[] && fnlzs.model == map[] && ready == [] && roots.list == [] && dlinks.Place() == Placement(w, PAGE, 0, 3)
      ensures totalHeap == TableBytes(w, 8) + 2 * TableBytes(w, 3) + stackBytes
    {
      hide TableBytes, Flatten, ObjHtable.PendingExact, ObjHtable.Valid, ObjHtable.Tracked, ObjHtable.LiveBytes, DataRoots.Valid, ChainTable<ObjLink>.Valid, Valid, Accounts;
      this.w, this.interior, this.dontExpand, this.dontGc, this.mem, this.maxHeap, this.stackBytes := w, interior, dontExpand, dontGc, mem, maxHeap, stackBytes;
      objs := new ObjHtable(w, 8);
      dlinks := new ChainTable(w, PAGE, 3);
      fnlzs := new ChainTable(w, 2 * w.Bytes(), 3);
      roots := new DataRoots(w);
      ready, hasClients := [], false;
      totalHeap, freeBytes := TableBytes(w, 8) + 2 * TableBytes(w, 3) + stackBytes, 0;
      expandedHeap, markedBytes, bytesAllocd, allocdBefore, gcNo := 0, 0, 0, 0, 0;
      recycling, spareDlinks, spareFinalizer, blockBytes := false, 0, false, 0;
      new;
      Started();
    }

    lemma Started()
      requires objs.w == w && dlinks.w == w && fnlzs.w == w && roots.w == w && dlinks.grain == PAGE
      requires objs.Valid() && dlinks.Valid() && fnlzs.Valid() && roots.Valid() && objs.PendingExact()
      requires Flatten(objs.hroots) == [] && objs.followList == [] && objs.markedList == [] && objs.freeList == []
      requires dlinks.model == map[] && fnlzs.model == map[] && ready == [] && dlinks.count == 0 && fnlzs.count == 0 && roots.list == []
      requires objs.log2Size == 8 && dlinks.log2Size == 3 && fnlzs.log2Size == 3 && blockBytes == 0 && !spareFinalizer
      requires totalHeap == TableBytes(w, 8) + 2 * TableBytes(w, 3) + stackBytes <= maxHeap < w.Modulus() && freeBytes == 0
      requires markedBytes == 0 && bytesAllocd == 0
      ensures Valid() && Accounts()
    {
      hide TableBytes, ObjHtable.Valid, DataRoots.Valid, ChainTable<ObjLink>.Valid;
      objs.NothingTracked();
      NoBytes(w);
    }

    // All bytes the collector has from malloc and counts as in use.
    ghost function Used(): nat
      reads this`blockBytes, this`spareFinalizer, objs`hroots, objs`followList, objs`markedList, objs`freeList, objs`log2Size
      reads dlinks`log2Size, dlinks`count, fnlzs`log2Size, fnlzs`count, roots`list
    {
      objs.LiveBytes() + Bytes(w, objs.freeList) + blockBytes + stackBytes
      + TableBytes(w, objs.log2Size) + TableBytes(w, dlinks.log2Size) + TableBytes(w, fnlzs.log2Size)
      + ThreeWords(w, dlinks.count + |roots.list|) + FourWords(w, fnlzs.count + if spareFinalizer then 1 else 0)
    }

    // The heap is what is in use and what is free; extra is about to be used.
    ghost predicate Ledger(extra: nat)
      reads this`totalHeap, this`freeBytes, this`maxHeap
      reads this`blockBytes, this`spareFinalizer, objs`hroots, objs`followList, objs`markedList, objs`freeList, objs`log2Size
      reads dlinks`log2Size, dlinks`count, fnlzs`log2Size, fnlzs`count, roots`list
    {
      totalHeap == freeBytes + Used() + extra && totalHeap <= maxHeap < w.Modulus()
    }

    // The sums over the lists of objects.
    ghost predicate Accounts()
      reads this`markedBytes, this`bytesAllocd, objs`hroots, objs`followList, objs`markedList, objs`freeList, objs`pendingFreeSize
    {
      markedBytes + bytesAllocd == objs.LiveBytes() && objs.PendingExact()
    }

    // All invariants, while extra bytes have been taken but not been put to use.
    ghost predicate Sane(extra: nat)
      reads this`totalHeap, this`freeBytes, this`maxHeap, this`blockBytes, this`spareFinalizer, this`ready
      reads objs`hroots, objs`freeList, objs`markedList, objs`followList, objs`unlinkedList
      reads objs`minObjAddr, objs`maxObjAddr, objs`log2Size, objs`count, dlinks, fnlzs, roots
    {
      Parts() && Attached() && Ledger(extra)
    }

    ghost predicate Valid()
      reads this`totalHeap, this`freeBytes, this`maxHeap, this`blockBytes, this`spareFinalizer, this`ready
      reads objs`hroots, objs`freeList, objs`markedList, objs`followList, objs`unlinkedList
      reads objs`minObjAddr, objs`maxObjAddr, objs`log2Size, objs`count, dlinks, fnlzs, roots
    {
      Sane(0)
    }

    ghost predicate Parts()
      reads objs`hroots, objs`freeList, objs`markedList, objs`followList, objs`unlinkedList
      reads objs`minObjAddr, objs`maxObjAddr, objs`log2Size, objs`count, dlinks, fnlzs, roots
    {
      && objs.w == w && dlinks.w == w && fnlzs.w == w && roots.w == w && dlinks.grain == PAGE
      && objs.log2Size >= 2 && dlinks.log2Size >= 2 && fnlzs.log2Size >= 2
      && objs.Valid() && dlinks.Valid() && fnlzs.Valid() && roots.Valid()
    }

    ghost predicate FinalizerOk(f: Finalizer)
      reads objs`hroots, objs`followList, objs`markedList
    {
      f.link in objs.Live() && f.client < w.Modulus()
    }

    // Weak links and finalizers, registered or ready, belong to objects that
    // are not on the free list.
    ghost predicate Attached()
      reads this`ready, objs`hroots, objs`followList, objs`markedList, dlinks`model, fnlzs`model
    {
      && (forall k :: k in dlinks.model ==> dlinks.model[k] in objs.Live() && k < w.Modulus())
      && (forall k :: k in fnlzs.model ==> FinalizerOk(fnlzs.model[k]) && fnlzs.model[k].link.at == k)
      && (forall f :: f in ready ==> FinalizerOk(f))
    }

    // Marking under way: r is what has to be reached.
    ghost predicate InMark(g: Graph, t: set<ObjLink>, r: set<ObjLink>)
      reads this`mem, objs
    {
      && g.interior == interior && g.mem == mem && g.view == objs.TheView()
      && objs.w == w && objs.Valid() && objs.Marking(g, t, r)
      && (t != {} ==> objs.Anchored())
    }

    // Marking moves objects, and nothing else.
    twostate predicate OnlyMarked()
      reads objs
    {
      && objs.Tracked() == old(objs.Tracked()) && objs.LiveBytes() == old(objs.LiveBytes())
      && objs.Table() <= old(objs.Table())
    }

    // GC_fnlz_precollect, ready list.
    method MarkReady(ghost g: Graph, ghost t: set<ObjLink>, ghost r: set<ObjLink>) returns (bytes: nat)
      requires InMark(g, t, r)
      requires forall f :: f in ready ==> 0 < f.link.obj < w.Modulus() && f.client < w.Modulus()
      requires forall o :: o in t && ReadySeed(ready, g, o) ==> o in r
      modifies objs`hroots, objs`count, objs`markedList, objs`followList
      ensures InMark(g, t, r) && OnlyMarked()
      ensures forall o :: o in objs.Table() ==> !ReadySeed(ready, g, o)
      ensures bytes == Masked(w, TaggedSum(Links(ready)))
    {
      hide Links, TaggedSum, ObjHtable.Valid, ObjHtable.Tracked, ObjHtable.LiveBytes, ObjHtable.Table, ObjHtable.Marking, ObjHtable.Anchored;
      var n, sum := 0, 0;
      assert TaggedSum(Links(ready[..0])) == 0 by { NoTaggedLinks(ready[..0]); }
      while n < |ready|
        invariant n <= |ready| && InMark(g, t, r) && OnlyMarked() && sum == TaggedSum(Links(ready[..n]))
        invariant forall o :: o in objs.Table() ==> !ReadySeed(ready[..n], g, o)
      {
        var f := ready[n];
        assert ready[..n + 1] == ready[..n] + [f];
        MarkFinalizer(f, true, g, t, r);
        LinksNext(ready[..n], f);
        sum := sum + f.link.tagged;
        n := n + 1;
      }
      assert ready[..n] == ready;
      bytes := Masked(w, sum);
    }

    // The marks of one finalizer.
    method MarkFinalizer(f: Finalizer, isReady: bool, ghost g: Graph, ghost t: set<ObjLink>, ghost r: set<ObjLink>)
      requires InMark(g, t, r) && 0 < f.link.obj < w.Modulus() && f.client < w.Modulus()
      requires forall o :: o in t && ((isReady && f.link.obj == o.obj) || ClientSeed(f, g, o)) ==> o in r
      modifies objs`hroots, objs`count, objs`markedList, objs`followList
      ensures InMark(g, t, r) && OnlyMarked()
      ensures forall o :: o in objs.Table() ==> !(isReady && f.link.obj == o.obj) && !ClientSeed(f, g, o)
    {
      hide ObjHtable.Valid, ObjHtable.Tracked, ObjHtable.LiveBytes, ObjHtable.Table, ObjHtable.Marking, ObjHtable.Anchored;
      if isReady {
        var _ := objs.MarkSeed(f.link.obj, false, g, t, r);
      }
      if f.client != 0 {
        var _ := objs.MarkSeed(f.client, interior, g, t, r);
      }
    }

    // GC_fnlz_precollect, one bucket of the table.
    method MarkChain(b: nat, ghost g: Graph, ghost t: set<ObjLink>, ghost r: set<ObjLink>)
      requires InMark(g, t, r) && b < |fnlzs.hroots|
      requires forall e :: e in fnlzs.hroots[b] ==> 0 < e.val.link.obj < w.Modulus() && e.val.client < w.Modulus()
      requires forall e, o :: e in fnlzs.hroots[b] && o in t && ClientSeed(e.val, g, o) ==> o in r
      modifies objs`hroots, objs`count, objs`markedList, objs`followList
      ensures InMark(g, t, r) && OnlyMarked()
      ensures forall e, o :: e in fnlzs.hroots[b] && o in objs.Table() ==> !ClientSeed(e.val, g, o)
    {
      hide ObjHtable.Valid, ObjHtable.Tracked, ObjHtable.LiveBytes, ObjHtable.Table, ObjHtable.Marking, ObjHtable.Anchored, ClientSeed;
      var chain := fnlzs.hroots[b];
      var i := 0;
      while i < |chain|
        invariant i <= |chain| && InMark(g, t, r) && OnlyMarked()
        invariant forall e, o :: e in chain[..i] && o in objs.Table() ==> !ClientSeed(e.val, g, o)
      {
        assert chain[..i + 1] == chain[..i] + [chain[i]];
        MarkFinalizer(chain[i].val, false, g, t, r);
        i := i + 1;
      }
      assert chain[..i] == chain;
    }

    // GC_fnlz_precollect, client data of the finalizers in the table.
    method MarkClients(ghost g: Graph, ghost t: set<ObjLink>, ghost r: set<ObjLink>)
      requires InMark(g, t, r) && fnlzs.Valid()
      requires forall k :: k in fnlzs.model ==> 0 < fnlzs.model[k].link.obj < w.Modulus() && fnlzs.model[k].client < w.Modulus()
      requires forall o :: o in t && TableSeed(fnlzs.model, g, o) ==> o in r
      modifies objs`hroots, objs`count, objs`markedList, objs`followList
      ensures InMark(g, t, r) && OnlyMarked()
      ensures forall o :: o in objs.Table() ==> !TableSeed(fnlzs.model, g, o)
    {
      hide InMark, ObjHtable.Tracked, ObjHtable.LiveBytes, ObjHtable.Table, ClientSeed, ChainTable<Finalizer>.Valid;
      var b := 0;
      while b < |fnlzs.hroots|
        invariant b <= |fnlzs.hroots| && InMark(g, t, r) && OnlyMarked()
        invariant forall a, e, o :: 0 <= a < b && e in fnlzs.hroots[a] && o in objs.Table() ==> !ClientSeed(e.val, g, o)
      {
        forall e | e in fnlzs.hroots[b] ensures e.key in fnlzs.model && fnlzs.model[e.key] == e.val {
          fnlzs.Meant(b, e);
        }
        MarkChain(b, g, t, r);
        b := b + 1;
      }
      forall k, o | k in fnlzs.model && o in objs.Table() ensures !ClientSeed(fnlzs.model[k], g, o) {
        fnlzs.Stored(k);
      }
    }

    // The scan of a list of regions: GC_roots_scan, which may stop before each,
    // and GC_stack_scan_frames.
    method ScanRegions(regions: seq<Root>, seedInterior: bool, mayStop: bool, ghost g: Graph, ghost t: set<ObjLink>, ghost r: set<ObjLink>)
      returns (done: bool)
      requires InMark(g, t, r) && t != {}
      requires forall o :: o in t && RegionSeed(regions, seedInterior, g, o) ==> o in r
      modifies objs`hroots, objs`count, objs`markedList, objs`followList
      ensures InMark(g, t, r) && OnlyMarked() && (!mayStop ==> done)
      ensures done ==> forall o :: o in objs.Table() ==> !RegionSeed(regions, seedInterior, g, o)
    {
      hide ObjHtable.Valid, ObjHtable.Tracked, ObjHtable.LiveBytes, ObjHtable.Table, ObjHtable.Marking, ObjHtable.Anchored, View.Pointed;
      var n := 0;
      while n < |regions|
        invariant n <= |regions| && InMark(g, t, r) && OnlyMarked()
        invariant forall o :: o in objs.Table() ==> !RegionSeed(regions[..n], seedInterior, g, o)
      {
        if mayStop {
          var stop: bool := *;
          if stop {
            return false;
          }
        }
        assert regions[..n + 1] == regions[..n] + [regions[n]];
        objs.ScanSeeds(mem, regions[n].begin, regions[n].end, seedInterior, g, t, r);
        n := n + 1;
      }
      assert regions[..n] == regions;
      return true;
    }

    // Some of the weak links of m0 to dead objects are gone and their words are
    // zero; all else is as it was.
    ghost predicate Cleared(m0: map<nat, ObjLink>, mem0: Memory, dead: set<ObjLink>)
      reads this`mem, dlinks`model
    {
      && (forall k :: k in dlinks.model ==> k in m0 && m0[k] == dlinks.model[k])
      && (forall k :: k in m0 && k !in dlinks.model ==> m0[k] in dead)
      && (forall a: nat :: mem(a) ==
           if a < w.Modulus() && Hide(w, a) in m0 && Hide(w, a) !in dlinks.model then 0 else mem0(a))
    }

    // *pnext = dlink->next; *(GC_word *)(~dlink->hidden_link) = 0
    method ClearLink(b: nat, i: nat, ghost m0: map<nat, ObjLink>, ghost mem0: Memory, ghost dead: set<ObjLink>)
      requires dlinks.Valid() && b < |dlinks.hroots| && i < |dlinks.hroots[b]| && Cleared(m0, mem0, dead)
      requires dlinks.hroots[b][i].val in dead && dlinks.hroots[b][i].key < w.Modulus()
      modifies dlinks`hroots, dlinks`count, dlinks`model, this`mem
      ensures dlinks.Valid() && Cleared(m0, mem0, dead) && dlinks.count + 1 == old(dlinks.count)
      ensures dlinks.hroots == old(dlinks.hroots)[b := old(dlinks.hroots[b][..i] + dlinks.hroots[b][i + 1..])]
    {
      hide ChainTable<ObjLink>.Valid;
      var e := dlinks.Unlink(b, i);
      var link := Hide(w, e.key);
      var before := mem;
      mem := (a: nat) => if a == link then 0 else before(a);
    }

    // GC_dlink_scan_clear, one bucket.
    method ClearChain(b: nat, ghost m0: map<nat, ObjLink>, ghost mem0: Memory, ghost dead: set<ObjLink>) returns (n: nat)
      requires objs.Valid() && dlinks.Valid() && b < |dlinks.hroots| && Cleared(m0, mem0, dead) && dead == objs.Table()
      requires forall e :: e in dlinks.hroots[b] ==> e.val in objs.Live() && e.key < w.Modulus()
      modifies dlinks`hroots, dlinks`count, dlinks`model, this`mem
      ensures dlinks.Valid() && Cleared(m0, mem0, dead) && dlinks.count + n == old(dlinks.count)
      ensures |dlinks.hroots| == old(|dlinks.hroots|) && forall a :: 0 <= a < |dlinks.hroots| && a != b ==> dlinks.hroots[a] == old(dlinks.hroots)[a]
      ensures forall e :: e in dlinks.hroots[b] ==> e.val !in dead
    {
      hide ChainTable<ObjLink>.Valid, ObjHtable.Valid, ObjHtable.Table, ObjHtable.Live, Cleared;
      n := 0;
      var i := 0;
      while i < |dlinks.hroots[b]|
        invariant |dlinks.hroots| == old(|dlinks.hroots|) && i <= |dlinks.hroots[b]|
        invariant forall a :: 0 <= a < |dlinks.hroots| && a != b ==> dlinks.hroots[a] == old(dlinks.hroots)[a]
        invariant dlinks.Valid() && Cleared(m0, mem0, dead) && dlinks.count + n == old(dlinks.count)
        invariant forall j :: 0 <= j < i ==> dlinks.hroots[b][j].val !in dead
        invariant forall e :: e in dlinks.hroots[b] ==> e.val in objs.Live() && e.key < w.Modulus()
        decreases |dlinks.hroots[b]| - i
      {
        assert dlinks.hroots[b][i] in dlinks.hroots[b];
        var found := objs.HasBase(dlinks.hroots[b][i].val);
        if found {
          ClearLink(b, i, m0, mem0, dead);
          n := n + 1;
        } else {
          i := i + 1;
        }
      }
    }

    // GC_dlink_scan_clear: exactly the weak links to objects left in the table
    // go, and exactly their words become zero.
    method ScanClear() returns (n: nat)
      requires objs.Valid() && dlinks.Valid()
      requires forall k :: k in dlinks.model ==> dlinks.model[k] in objs.Live() && k < w.Modulus()
      modifies dlinks`hroots, dlinks`count, dlinks`model, this`mem
      ensures dlinks.Valid() && dlinks.count + n == old(dlinks.count)
      ensures Cleared(old(dlinks.model), old(mem), objs.Table())
      ensures forall k :: k in dlinks.model ==> dlinks.model[k] !in objs.Table()
    {
      hide ChainTable<ObjLink>.Valid, ObjHtable.Valid, ObjHtable.Table, ObjHtable.Live;
      n := 0;
      var b := 0;
      while b < |dlinks.hroots|
        invariant b <= |dlinks.hroots| && dlinks.Valid() && Cleared(old(dlinks.model), old(mem), objs.Table())
        invariant dlinks.count + n == old(dlinks.count)
        invariant forall a, e :: 0 <= a < b && e in dlinks.hroots[a] ==> e.val !in objs.Table()
      {
        forall e | e in dlinks.hroots[b] ensures e.val in objs.Live() && e.key < w.Modulus() {
          dlinks.Meant(b, e);
        }
        var more := ClearChain(b, old(dlinks.model), old(mem), objs.Table());
        n := n + more;
        b := b + 1;
      }
      forall k | k in dlinks.model ensures dlinks.model[k] !in objs.Table() {
        dlinks.Stored(k);
      }
    }

    // The finalizers of m0 belong to objects of t that are to be reached.
    ghost predicate Registered(m0: map<nat, Finalizer>, t: set<ObjLink>, r: set<ObjLink>) {
      && (forall k :: k in m0 ==> m0[k].link.at == k && m0[k].link in t && m0[k].link in r)
      && (forall o, p :: o in t && p in t && o.obj == p.obj ==> o == p)
      && (forall o :: o in t ==> 0 < o.obj < w.Modulus())
    }

    // The finalizers that are registered or ready.
    ghost function Due(): multiset<Finalizer>
      reads this`ready, fnlzs`model
    {
      DueOf(fnlzs.model, ready)
    }

    // Some of the finalizers of m0 have become ready, each once, and only those
    // of objects of t1.
    ghost predicate Readied(m0: map<nat, Finalizer>, ready0: seq<Finalizer>, t1: set<ObjLink>)
      reads this`ready, fnlzs`model
    {
      && (forall k :: k in fnlzs.model ==> k in m0 && m0[k] == fnlzs.model[k])
      && |fnlzs.model| + |ready| == |m0| + |ready0|
      && |ready| >= |ready0| && ready[|ready| - |ready0|..] == ready0
      && (forall f :: f in ready[..|ready| - |ready0|] ==>
           f.link in t1 && f.link.at in m0 && f.link.at !in fnlzs.model && m0[f.link.at] == f)
      && (forall k :: k in m0 && k !in fnlzs.model ==> m0[k] in ready[..|ready| - |ready0|])
      && Due() == DueOf(m0, ready0)
    }

    // Of t1, the objects of these finalizers and no others have been marked.
    ghost predicate MarkedSince(m0: map<nat, Finalizer>, t1: set<ObjLink>)
      reads fnlzs`model, objs
    {
      forall o :: o in objs.Table() <==> o in t1 && !(o.at in m0 && o.at !in fnlzs.model && m0[o.at].link == o)
    }

    // *pnext = fnlz->next; fnlz->next = ready_fnlz; ready_fnlz = fnlz
    method MakeReady(b: nat, i: nat, ghost m0: map<nat, Finalizer>, ghost ready0: seq<Finalizer>, ghost t1: set<ObjLink>)
      requires fnlzs.Valid() && b < |fnlzs.hroots| && i < |fnlzs.hroots[b]| && Readied(m0, ready0, t1)
      requires var e := fnlzs.hroots[b][i]; e.val.link in t1 && e.key == e.val.link.at
      modifies fnlzs`hroots, fnlzs`count, fnlzs`model, this`ready
      ensures fnlzs.Valid() && Readied(m0, ready0, t1) && fnlzs.count + 1 == old(fnlzs.count)
      ensures fnlzs.model == old(fnlzs.model) - {old(fnlzs.hroots[b][i].key)}
      ensures fnlzs.hroots == old(fnlzs.hroots)[b := old(fnlzs.hroots[b][..i] + fnlzs.hroots[b][i + 1..])]
    {
      hide ChainTable<Finalizer>.Valid, Readied;
      fnlzs.Meant(b, fnlzs.hroots[b][i]);
      FinalizerCount();
      var e := fnlzs.Unlink(b, i);
      FinalizerCount();
      ready := [e.val] + ready;
      OneMoreReady(m0, ready0, t1, e);
    }

    twostate lemma OneMoreReady(m0: map<nat, Finalizer>, new ready0: seq<Finalizer>, new t1: set<ObjLink>, new e: Entry<Finalizer>)
      requires old(Readied(m0, ready0, t1)) && e.key in old(fnlzs.model) && old(fnlzs.model)[e.key] == e.val
      requires e.val.link in t1 && e.key == e.val.link.at
      requires fnlzs.model == old(fnlzs.model) - {e.key} && |fnlzs.model| + 1 == |old(fnlzs.model)|
      requires ready == [e.val] + old(ready)
      ensures Readied(m0, ready0, t1)
    {
      hide DueOf;
      DueMoves(old(fnlzs.model), old(ready), e.val);
      var n := |ready| - |ready0|;
      assert ready[..n] == [e.val] + old(ready)[..n - 1];
      assert ready[n..] == old(ready)[n - 1..];
    }

    lemma FinalizerCount()
      requires fnlzs.Valid()
      ensures fnlzs.count == |fnlzs.model| && (fnlzs.count == 0 <==> fnlzs.model == map[])
    {
    }

    // GC_fnlz_after_collect, one bucket.
    method ReadyChain(b: nat, ghost m0: map<nat, Finalizer>, ghost ready0: seq<Finalizer>, ghost t1: set<ObjLink>,
        ghost g: Graph, ghost t: set<ObjLink>, ghost r: set<ObjLink>) returns (n: nat)
      requires InMark(g, t, r) && fnlzs.Valid() && b < |fnlzs.hroots| && Readied(m0, ready0, t1) && MarkedSince(m0, t1) && t1 <= t
      requires Registered(m0, t, r)
      modifies objs`hroots, objs`count, objs`markedList, objs`followList
      modifies fnlzs`hroots, fnlzs`count, fnlzs`model, this`ready
      ensures InMark(g, t, r) && fnlzs.Valid() && Readied(m0, ready0, t1) && MarkedSince(m0, t1) && OnlyMarked()
      ensures fnlzs.count + n == old(fnlzs.count)
      ensures |fnlzs.hroots| == old(|fnlzs.hroots|) && forall a :: 0 <= a < |fnlzs.hroots| && a != b ==> fnlzs.hroots[a] == old(fnlzs.hroots)[a]
      ensures forall e :: e in fnlzs.hroots[b] ==> e.val.link !in t1
    {
      hide ChainTable<Finalizer>.Valid, ObjHtable.Valid, ObjHtable.Table, ObjHtable.Tracked, ObjHtable.LiveBytes, ObjHtable.Marking, ObjHtable.Anchored, Readied;
      n := 0;
      var i := 0;
      while i < |fnlzs.hroots[b]|
        invariant |fnlzs.hroots| == old(|fnlzs.hroots|) && i <= |fnlzs.hroots[b]|
        invariant forall a :: 0 <= a < |fnlzs.hroots| && a != b ==> fnlzs.hroots[a] == old(fnlzs.hroots)[a]
        invariant InMark(g, t, r) && fnlzs.Valid() && Readied(m0, ready0, t1) && MarkedSince(m0, t1) && OnlyMarked()
        invariant fnlzs.count + n == old(fnlzs.count)
        invariant forall j :: 0 <= j < i ==> fnlzs.hroots[b][j].val.link !in t1
        decreases |fnlzs.hroots[b]| - i
      {
        var done := TryReady(b, i, m0, ready0, t1, g, t, r);
        if done {
          n := n + 1;
        } else {
          i := i + 1;
        }
      }
    }

    // GC_fnlz_after_collect, one finalizer: ready if its object was unmarked.
    method TryReady(b: nat, i: nat, ghost m0: map<nat, Finalizer>, ghost ready0: seq<Finalizer>, ghost t1: set<ObjLink>,
        ghost g: Graph, ghost t: set<ObjLink>, ghost r: set<ObjLink>) returns (done: bool)
      requires InMark(g, t, r) && fnlzs.Valid() && b < |fnlzs.hroots| && i < |fnlzs.hroots[b]|
      requires Readied(m0, ready0, t1) && MarkedSince(m0, t1) && t1 <= t
      requires Registered(m0, t, r)
      modifies objs`hroots, objs`count, objs`markedList, objs`followList
      modifies fnlzs`hroots, fnlzs`count, fnlzs`model, this`ready
      ensures InMark(g, t, r) && fnlzs.Valid() && Readied(m0, ready0, t1) && MarkedSince(m0, t1) && OnlyMarked()
      ensures done == (old(fnlzs.hroots[b][i].val.link) in t1)
      ensures if done then
          && fnlzs.hroots == old(fnlzs.hroots)[b := old(fnlzs.hroots[b][..i] + fnlzs.hroots[b][i + 1..])]
          && fnlzs.count + 1 == old(fnlzs.count)
        else fnlzs.hroots == old(fnlzs.hroots) && fnlzs.count == old(fnlzs.count)
    {
      hide ChainTable<Finalizer>.Valid, ObjHtable.Valid, ObjHtable.Table, ObjHtable.Tracked, ObjHtable.LiveBytes, ObjHtable.Marking, ObjHtable.Anchored, Readied, MarkedSince;
      var e := fnlzs.hroots[b][i];
      fnlzs.Meant(b, e);
      ReadiedFrom(m0, ready0, t1, e.key);
      objs.MarkingNow(g, t, r);
      UnmarkedSince(m0, t1, e.val);
      ghost var table := objs.Table();
      done := objs.MarkSeed(e.val.link.obj, false, g, t, r);
      assert objs.Table() == table - {e.val.link};
      assert done == (e.val.link in table);
      if done {
        MakeReady(b, i, m0, ready0, t1);
        MarkedOne(m0, t1, e.val.link);
      } else {
        MarkedNone(m0, t1);
      }
    }

    lemma ReadiedFrom(m0: map<nat, Finalizer>, ready0: seq<Finalizer>, t1: set<ObjLink>, k: nat)
      requires Readied(m0, ready0, t1) && k in fnlzs.model
      ensures k in m0 && m0[k] == fnlzs.model[k]
    {
    }

    lemma UnmarkedSince(m0: map<nat, Finalizer>, t1: set<ObjLink>, f: Finalizer)
      requires MarkedSince(m0, t1) && f.link.at in fnlzs.model
      ensures f.link in objs.Table() <==> f.link in t1
    {
    }

    twostate lemma MarkedNone(m0: map<nat, Finalizer>, new t1: set<ObjLink>)
      requires old(MarkedSince(m0, t1)) && objs.Table() == old(objs.Table()) && fnlzs.model == old(fnlzs.model)
      ensures MarkedSince(m0, t1)
    {
    }

    twostate lemma MarkedOne(m0: map<nat, Finalizer>, new t1: set<ObjLink>, new o: ObjLink)
      requires old(MarkedSince(m0, t1)) && o.at in m0 && m0[o.at].link == o && o.at in old(fnlzs.model)
      requires objs.Table() == old(objs.Table()) - {o} && fnlzs.model == old(fnlzs.model) - {o.at}
      ensures MarkedSince(m0, t1)
    {
    }

    lemma NoneReady()
      ensures Readied(fnlzs.model, ready, objs.Table()) && MarkedSince(fnlzs.model, objs.Table())
    {
      assert ready[..0] == [];
    }

    lemma TableWithin(g: Graph, t: set<ObjLink>, r: set<ObjLink>)
      requires InMark(g, t, r)
      ensures objs.Table() <= t && objs.Valid() && g.view.w == w && g.interior == interior
    {
      objs.MarkingNow(g, t, r);
    }

    // has_client_ptrs is reset when the last finalizer leaves the table.
    twostate predicate FlagKept()
      reads this`hasClients, fnlzs`model
    {
      (hasClients ==> old(hasClients)) && (old(hasClients) && fnlzs.model != map[] ==> hasClients)
    }

    // GC_fnlz_after_collect: of the finalizers in the table exactly those of
    // unmarked objects become ready, and these objects are marked after all.
    method AfterCollect(ghost g: Graph, ghost t: set<ObjLink>, ghost r: set<ObjLink>) returns (n: nat)
      requires InMark(g, t, r) && fnlzs.Valid() && Registered(fnlzs.model, t, r)
      modifies objs`hroots, objs`count, objs`markedList, objs`followList
      modifies fnlzs`hroots, fnlzs`count, fnlzs`model, this`ready, this`hasClients
      ensures InMark(g, t, r) && fnlzs.Valid() && OnlyMarked() && fnlzs.count + n == old(fnlzs.count)
      ensures Readied(old(fnlzs.model), old(ready), old(objs.Table())) && MarkedSince(old(fnlzs.model), old(objs.Table()))
      ensures forall k :: k in fnlzs.model ==> fnlzs.model[k].link !in old(objs.Table())
      ensures FlagKept()
    {
      hide ChainTable<Finalizer>.Valid, ObjHtable.Table, ObjHtable.Tracked, ObjHtable.LiveBytes, InMark, Readied, MarkedSince, Registered;
      ghost var m0, ready0, t1 := fnlzs.model, ready, objs.Table();
      NoneReady();
      TableWithin(g, t, r);
      n := 0;
      var b := 0;
      while b < |fnlzs.hroots|
        invariant b <= |fnlzs.hroots| && InMark(g, t, r) && fnlzs.Valid() && OnlyMarked()
        invariant Readied(m0, ready0, t1) && MarkedSince(m0, t1) && fnlzs.count + n == old(fnlzs.count) && hasClients == old(hasClients)
        invariant forall a, e :: 0 <= a < b && e in fnlzs.hroots[a] ==> e.val.link !in t1
      {
        var more := ReadyChain(b, m0, ready0, t1, g, t, r);
        n := n + more;
        b := b + 1;
      }
      ResetClients();
      forall k | k in fnlzs.model ensures fnlzs.model[k].link !in t1 {
        fnlzs.Stored(k);
      }
    }

    // The objects that root scanning starts from.
    ghost function Seeds(stack: seq<Root>, g: Graph, t: set<ObjLink>): set<ObjLink>
      reads this`ready, this`hasClients, fnlzs`model, roots`list
    {
      set o | o in t && (
        ReadySeed(ready, g, o) || (hasClients && TableSeed(fnlzs.model, g, o))
        || RegionSeed(stack, true, g, o) || RegionSeed(roots.list, interior, g, o))
    }

    // The refill before a collection: every object returns to the table.
    method RefillAll(mayStop: bool) returns (stopped: bool)
      requires objs.Valid()
      modifies objs`hroots, objs`count, objs`minObjAddr, objs`maxObjAddr, objs`markedList, objs`followList
      ensures objs.Valid() && objs.Tracked() == old(objs.Tracked()) && objs.LiveBytes() == old(objs.LiveBytes())
      ensures objs.Live() == old(objs.Live()) && (!mayStop ==> !stopped)
      ensures !stopped ==> objs.followList == [] && objs.markedList == [] && objs.Table() == objs.Live()
    {
      hide ObjHtable.Valid, ObjHtable.Tracked, ObjHtable.LiveBytes, ObjHtable.Table;
      stopped := false;
      while true
        invariant objs.Valid() && objs.Tracked() == old(objs.Tracked()) && objs.LiveBytes() == old(objs.LiveBytes())
        invariant objs.Live() == old(objs.Live())
        decreases |objs.followList| + |objs.markedList|
      {
        var moved := objs.SomeRefill(1024);
        objs.LiveKept();
        if moved == 0 {
          break;
        }
        if mayStop {
          stopped := *;
          if stopped {
            break;
          }
        }
      }
    }

    // GC_fnlz_precollect
    method PreCollect(ghost g: Graph, ghost t: set<ObjLink>, ghost r: set<ObjLink>) returns (bytes: nat)
      requires InMark(g, t, r) && fnlzs.Valid()
      requires forall f :: f in ready ==> 0 < f.link.obj < w.Modulus() && f.client < w.Modulus()
      requires forall k :: k in fnlzs.model ==> 0 < fnlzs.model[k].link.obj < w.Modulus() && fnlzs.model[k].client < w.Modulus()
      requires forall o :: o in t && (ReadySeed(ready, g, o) || (hasClients && TableSeed(fnlzs.model, g, o))) ==> o in r
      modifies objs`hroots, objs`count, objs`markedList, objs`followList
      ensures InMark(g, t, r) && OnlyMarked()
      ensures forall o :: o in objs.Table() ==> !ReadySeed(ready, g, o) && !(hasClients && TableSeed(fnlzs.model, g, o))
      ensures bytes == Masked(w, TaggedSum(Links(ready)))
    {
      hide InMark, ReadySeed, TableSeed, ChainTable<Finalizer>.Valid, ObjHtable.Tracked, ObjHtable.LiveBytes, ObjHtable.Table;
      bytes := MarkReady(g, t, r);
      if hasClients {
        MarkClients(g, t, r);
      }
    }

    // The scan of stack and roots and the closure under pointing.
    method ScanPhase(stack: seq<Root>, mayStop: bool, ghost g: Graph, ghost t: set<ObjLink>, ghost seeds: set<ObjLink>) returns (stopped: bool)
      requires InMark(g, t, g.Reach(t, seeds)) && t != {} && seeds == Seeds(stack, g, t)
      requires forall o :: o in objs.Table() ==> !ReadySeed(ready, g, o) && !(hasClients && TableSeed(fnlzs.model, g, o))
      modifies objs`hroots, objs`count, objs`markedList, objs`followList
      ensures InMark(g, t, g.Reach(t, seeds)) && OnlyMarked() && (!mayStop ==> !stopped)
      ensures !stopped ==> objs.followList == [] && objs.Table() == t - g.Reach(t, seeds)
    {
      hide ObjHtable.Valid, ObjHtable.Tracked, ObjHtable.LiveBytes, ObjHtable.Table, ObjHtable.Marking, ObjHtable.Anchored;
      hide ReadySeed, TableSeed, RegionSeed, Graph.Reach;
      g.ReachClosed(t, seeds);
      var _ := ScanRegions(stack, true, false, g, t, g.Reach(t, seeds));
      stopped := true;
      var done := ScanRegions(roots.list, interior, mayStop, g, t, g.Reach(t, seeds));
      if done {
        objs.ScanFollowable(mem, interior, t, g.Reach(t, seeds), mayStop);
        if objs.followList == [] {
          stopped := false;
          objs.MarkingComplete(g, t, seeds);
        }
      }
    }

    // Memory that malloc can hand out: aligned, with a page behind it, and not
    // in use.
    predicate Usable(p: nat, size: nat)
      reads objs
    {
      0 < p && p % w.Bytes() == 0 && p + PAGE < w.Modulus() && p + size <= w.Modulus() && objs.Avoids(p, size)
    }

    // total_heapsize - (free_bytes - size), on words.
    function Enlarged(size: nat): int
      requires freeBytes < w.Modulus() && size < w.Modulus()
      reads this`totalHeap, this`freeBytes
    {
      Sub(w, totalHeap, Sub(w, freeBytes, size))
    }

    // The test against the maximum wraps around only for a block that does not
    // fit into the address space beside what is in use.
    lemma EnlargedFits(size: nat)
      requires freeBytes <= size < w.Modulus() && totalHeap < w.Modulus()
      ensures totalHeap - freeBytes + size < w.Modulus() ==> Enlarged(size) == totalHeap - freeBytes + size
    {
    }

    // GC_inner_core_malloc.  What malloc answers is open, but for memory that is
    // in use or more than there are addresses; a block is charged to the free
    // bytes first, and the heap grows for the rest if it may.
    method CoreMalloc(size: nat, noExpand: bool, ghost extra: nat) returns (ptr: nat)
      requires Sane(extra)
      modifies this`totalHeap, this`freeBytes
      ensures if ptr != 0 then Usable(ptr, size) && Sane(extra + size) else Sane(extra) && unchanged(this)
      ensures ptr != 0 ==> size < w.Tag() && (old(freeBytes) > size || !noExpand)
      ensures totalHeap >= old(totalHeap) && (noExpand ==> totalHeap == old(totalHeap))
    {
      hide Parts, Attached, Used, ObjHtable.Avoids;
      ptr := 0;
      if size <= w.Tag() - 257 && (freeBytes > size || (!noExpand && Enlarged(size) <= maxHeap)) {
        ptr := *;
        if Usable(ptr, size) && totalHeap - freeBytes + size < w.Modulus() {
          if freeBytes <= size {
            EnlargedFits(size);
          }
          Charge(size, extra);
        } else {
          ptr := 0;
        }
      }
    }

    // A block comes out of the free bytes, and of a larger heap if these do not
    // suffice.
    method Charge(size: nat, ghost extra: nat)
      requires Sane(extra) && (freeBytes > size || totalHeap + size - freeBytes <= maxHeap)
      modifies this`totalHeap, this`freeBytes
      ensures Sane(extra + size) && totalHeap >= old(totalHeap)
      ensures if old(freeBytes) > size then totalHeap == old(totalHeap) else totalHeap <= old(totalHeap) + size
    {
      hide Parts, Attached, Used;
      if freeBytes < size {
        totalHeap := totalHeap + (size - freeBytes);
        freeBytes := 0;
      } else {
        freeBytes := freeBytes - size;
      }
    }

    // GC_heap_expand: the heap grows by what malloc shows to be there, never
    // beyond the maximum.  Rounding size up and adding it to the free bytes and
    // to the heap may wrap around; what the heap grows by in the end does not.
    method HeapExpand(size: nat) returns (ok: bool)
      requires Sane(0) && size < w.Modulus()
      modifies this`totalHeap, this`freeBytes, this`expandedHeap
      ensures Sane(0) && totalHeap >= old(totalHeap)
      ensures ok ==> totalHeap - old(totalHeap) == freeBytes - old(freeBytes)
      ensures !ok ==> totalHeap == old(totalHeap) && freeBytes == old(freeBytes)
    {
      hide Parts, Attached, Used;
      ok := false;
      var inc: nat := if size > w.Bytes() * PAGE then AlignUp(w, size) else w.Bytes() * PAGE;
      if (freeBytes + inc) % w.Modulus() <= w.Tag() - 257 {
        expandedHeap := (totalHeap + inc) % w.Modulus();
        if maxHeap > totalHeap {
          if maxHeap - totalHeap < inc {
            inc := maxHeap - totalHeap;
          }
          var there: bool := *;
          while !there && inc > 0
            invariant inc <= maxHeap - totalHeap && freeBytes + inc < w.Modulus()
            decreases inc
          {
            inc := inc / 2;
            if inc == 0 {
              break;
            }
            there := *;
          }
          if there {
            totalHeap := totalHeap + inc;
            expandedHeap := totalHeap;
            freeBytes := freeBytes + inc;
            ok := true;
          }
        }
      }
    }

    // GC_dlink_free_pending: spare weak link nodes go back to malloc.
    method FreeSpareDlinks(min: nat, ghost extra: nat) returns (count: nat)
      requires Sane(extra)
      modifies this`spareDlinks
      ensures Sane(extra) && spareDlinks + count == old(spareDlinks)
      ensures var most := if min == 0 then 1 else min; count == if old(spareDlinks) < most then old(spareDlinks) else most
    {
      hide Sane;
      count := 0;
      while spareDlinks > 0 && (count == 0 || count < min)
        invariant Sane(extra) && spareDlinks + count == old(spareDlinks)
        invariant count <= if min == 0 then 1 else min
      {
        spareDlinks := spareDlinks - 1;
        count := count + 1;
      }
    }

    // The weak links whose words lie in the object about to be freed are looked
    // for in two buckets, and exactly those found there go.
    method DeleteInside(o: ObjLink) returns (n: nat)
      requires dlinks.Valid() && dlinks.w == w && dlinks.grain == PAGE && o.Ok(w)
      modifies dlinks`hroots, dlinks`count, dlinks`model
      ensures dlinks.Valid() && dlinks.count + n == old(dlinks.count)
      ensures forall k :: k in dlinks.model <==> k in old(dlinks.model) && !Sought(dlinks.Place(), o, k)
      ensures forall k :: k in dlinks.model ==> dlinks.model[k] == old(dlinks.model)[k]
    {
      hide ChainTable<ObjLink>.Valid, Placement.Bucket;
      n := 0;
      NoLinksNoCount();
      dlinks.PlaceOk();
      var min, max := LowHidden(w, o), HighHidden(w, o);
      if dlinks.count != 0 && max >= min {
        n := dlinks.DeleteRange(max, min, max);
        if min / PAGE != max / PAGE {
          // the code compares (min ^ max) without the low bits to zero
          var more := dlinks.DeleteRange(max - PAGE, min, max);
          n := n + more;
        }
      }
    }

    lemma NoLinksNoCount()
      requires dlinks.Valid()
      ensures dlinks.count == 0 ==> dlinks.model == map[]
    {
    }

    // What a step that frees pending objects may do: live objects, finalizers
    // and roots stay; of the weak links some may go.
    twostate predicate OnlyFreed()
      reads objs`hroots, objs`followList, objs`markedList, objs`unlinkedList, dlinks`model
    {
      && objs.Live() == old(objs.Live()) && objs.LiveBytes() == old(objs.LiveBytes())
      && |objs.unlinkedList| >= |old(objs.unlinkedList)|
      && (forall k :: k in dlinks.model ==> k in old(dlinks.model) && dlinks.model[k] == old(dlinks.model)[k])
    }

    // One object of GC_objlink_free_pending.
    method FreeOne(ghost extra: nat) returns (o: ObjLink)
      requires Sane(extra) && objs.freeList != []
      modifies objs`freeList, objs`unlinkedList, dlinks`hroots, dlinks`count, dlinks`model, this`freeBytes
      ensures Sane(extra) && OnlyFreed()
      ensures o == old(objs.freeList[0]) && objs.freeList == old(objs.freeList[1..])
      ensures objs.unlinkedList == [o.at] + old(objs.unlinkedList) && o.Ok(w)
      ensures objs.Tracked() + multiset{o} == old(objs.Tracked())
      ensures forall k :: k in dlinks.model <==> k in old(dlinks.model) && !Sought(dlinks.Place(), o, k)
    {
      hide Sane, OnlyFreed, ObjHtable.Valid, ObjHtable.LiveBytes, ObjHtable.Tracked, ObjHtable.Live, ChainTable<ObjLink>.Valid, Bytes, Sought, ObjLink.Ok, DataRoots.Valid;
      Pieces(extra);
      objs.FreeOk();
      var n := DeleteInside(objs.freeList[0]);
      o := objs.FreeHead();
      freeBytes := freeBytes + o.Size(w) + ThreeWords(w, n);
      FreedOne(extra, n, o);
    }

    // The least sizes of the tables.
    lemma IndexSizes(extra: nat)
      requires Sane(extra)
      ensures objs.log2Size >= 2 && dlinks.log2Size >= 2 && fnlzs.log2Size >= 2
    {
    }

    lemma Pieces(extra: nat)
      requires Sane(extra)
      ensures objs.Valid() && dlinks.Valid() && fnlzs.Valid() && roots.Valid()
      ensures objs.w == w && dlinks.w == w && fnlzs.w == w && roots.w == w && dlinks.grain == PAGE
      ensures objs.log2Size >= 2 && dlinks.log2Size >= 2 && fnlzs.log2Size >= 2
    {
    }

    twostate lemma FreedOne(extra: nat, new n: nat, new o: ObjLink)
      requires old(Sane(extra)) && objs.Valid() && dlinks.Valid() && old(objs.freeList) != []
      requires unchanged(objs`hroots, objs`markedList, objs`followList, objs`log2Size)
      requires unchanged(dlinks`log2Size, this`totalHeap, this`maxHeap, this`blockBytes, this`spareFinalizer, this`ready, fnlzs, roots)
      requires o == old(objs.freeList[0]) && objs.freeList == old(objs.freeList[1..]) && objs.unlinkedList == [o.at] + old(objs.unlinkedList)
      requires dlinks.count + n == old(dlinks.count) && freeBytes == old(freeBytes) + o.Size(w) + ThreeWords(w, n)
      requires forall k :: k in dlinks.model ==> k in old(dlinks.model) && dlinks.model[k] == old(dlinks.model)[k]
      ensures Sane(extra) && OnlyFreed()
    {
      hide ObjHtable.Valid, ObjHtable.LiveBytes, ObjHtable.Live, DataRoots.Valid, ChainTable<ObjLink>.Valid, Bytes, TableBytes;
      BytesHead(w, old(objs.freeList));
    }

    lemma SameWidth(extra: nat)
      requires Sane(extra)
      ensures objs.w == w && dlinks.w == w && fnlzs.w == w && roots.w == w
    {
    }

    // The loop of GC_objlink_free_pending.
    method FreeSome(min: nat, ghost extra: nat) returns (count: nat, total: nat, ghost tags: nat)
      requires Sane(extra)
      modifies objs`freeList, objs`unlinkedList, dlinks`hroots, dlinks`count, dlinks`model, this`freeBytes
      ensures Sane(extra) && OnlyFreed()
      ensures count <= |old(objs.freeList)| && objs.freeList == old(objs.freeList)[count..]
      ensures objs.freeList != [] ==> freeBytes >= min
      ensures objs.w == w && total == Bytes(w, old(objs.freeList)[..count]) + TagBits(w, tags)
      ensures forall k :: k in dlinks.model <==> k in old(dlinks.model) && !SoughtIn(dlinks.Place(), old(objs.freeList)[..count], k)
    {
      hide Sane, Bytes, TagBits, Sought, SoughtIn, ObjHtable.Live, ObjHtable.LiveBytes, ObjHtable.Tracked, ObjLink.Ok;
      count, total, tags := 0, 0, 0;
      NoBytes(w);
      SameWidth(extra);
      NoTags(w);
      assert objs.freeList[..0] == [];
      ghost var p := dlinks.Place();
      assert forall k :: !SoughtIn(p, [], k) by {
        NothingSought(p);
      }
      while objs.freeList != []
        invariant Sane(extra) && OnlyFreed()
        invariant count <= |old(objs.freeList)| && objs.freeList == old(objs.freeList)[count..]
        invariant total == Bytes(w, old(objs.freeList)[..count]) + TagBits(w, tags)
        invariant dlinks.Place() == p && forall k :: k in dlinks.model <==> k in old(dlinks.model) && !SoughtIn(p, old(objs.freeList)[..count], k)
        decreases |objs.freeList|
      {
        BytesNext(w, old(objs.freeList), count);
        ghost var links, next := dlinks.model, objs.freeList[0];
        forall k: nat
          ensures SoughtIn(p, old(objs.freeList)[..count + 1], k) <==> SoughtIn(p, old(objs.freeList)[..count], k) || Sought(p, next, k)
        {
          SoughtNext(p, old(objs.freeList), count, k);
        }
        var o := FreeOne(extra);
        assert dlinks.Place() == p && forall k :: k in dlinks.model <==> k in links && !Sought(p, next, k);
        total := total + o.tagged;
        OneMoreTag(w, tags, o);
        tags := tags + if o.Atomic(w) then 1 else 0;
        count := count + 1;
        if freeBytes >= min {
          break;
        }
      }
    }

    // pending_free_size -= totalsize & ~mask
    method SettlePending(total: nat, ghost list: seq<ObjLink>, ghost n: nat, ghost tags: nat, ghost extra: nat)
      requires Sane(extra) && n <= |list| && objs.freeList == list[n..] && objs.w == w
      requires total == Bytes(w, list[..n]) + TagBits(w, tags)
      modifies objs`pendingFreeSize
      ensures Sane(extra)
      ensures old(objs.pendingFreeSize) == Bytes(w, list) && Bytes(w, list) < w.Tag() ==> objs.PendingExact()
    {
      hide Sane, Bytes, Masked, TagBits;
      PendingTaken(w, list, n, total, tags);
      objs.pendingFreeSize := Sub(w, objs.pendingFreeSize, Masked(w, total));
    }

    // GC_objlink_free_pending: objects of the free list go back to malloc until
    // min bytes are free.
    method FreePending(min: nat, ghost extra: nat) returns (count: nat)
      requires Sane(extra)
      modifies objs`freeList, objs`unlinkedList, objs`pendingFreeSize, dlinks`hroots, dlinks`count, dlinks`model, this`freeBytes
      ensures Sane(extra) && OnlyFreed()
      ensures count <= |old(objs.freeList)| && objs.freeList == old(objs.freeList)[count..]
      ensures forall k :: k in dlinks.model <==> k in old(dlinks.model) && !SoughtIn(dlinks.Place(), old(objs.freeList)[..count], k)
      ensures objs.freeList != [] ==> freeBytes >= min
      ensures old(objs.PendingExact()) && Bytes(w, old(objs.freeList)) < w.Tag() ==> objs.PendingExact()
      ensures Bytes(w, objs.freeList) <= Bytes(w, old(objs.freeList))
    {
      hide Sane, Bytes, ObjHtable.Live, ObjHtable.LiveBytes, TagBits, SoughtIn;
      var total;
      ghost var tags;
      count, total, tags := FreeSome(min, extra);
      BytesSuffix(w, old(objs.freeList), count);
      SettlePending(total, old(objs.freeList), count, tags, extra);
    }

    // GC_alloc_hroots, without the table itself: memory for 2^log2 buckets,
    // for which everything pending is freed if need be.
    method AllocHroots(log2: nat, ghost extra: nat) returns (ok: bool)
      requires Sane(extra)
      modifies objs`freeList, objs`unlinkedList, objs`pendingFreeSize, dlinks`hroots, dlinks`count, dlinks`model
      modifies this`freeBytes, this`totalHeap, this`spareDlinks
      ensures Sane(if ok then extra + TableBytes(w, log2) else extra) && OnlyFreed() && (ok ==> TableBytes(w, log2) < w.Tag())
      ensures forall o :: o in objs.freeList ==> o in old(objs.freeList)
      ensures old(objs.PendingExact()) && Bytes(w, old(objs.freeList)) < w.Tag() ==> objs.PendingExact()
      ensures Bytes(w, objs.freeList) <= Bytes(w, old(objs.freeList))
      ensures totalHeap >= old(totalHeap)
    {
      hide Sane, TableBytes, Bytes, ObjHtable.Live, ObjHtable.LiveBytes, ObjHtable.PendingExact, Usable;
      var ptr := CoreMalloc(TableBytes(w, log2), dontExpand, extra);
      if ptr == 0 {
        var spare := FreeSpareDlinks(w.Modulus() - 1, extra);
        var freed := FreePending(w.Modulus() - 1, extra);
        if spare + freed != 0 || dontExpand {
          ptr := CoreMalloc(TableBytes(w, log2), false, extra);
        }
      }
      ok := ptr != 0;
    }

    // Nothing that a weak link or a finalizer needs is left in the table.
    ghost predicate Severed()
      reads this`ready, dlinks`model, fnlzs`model, objs`hroots
    {
      && (forall k :: k in dlinks.model ==> dlinks.model[k] !in objs.Table())
      && (forall k :: k in fnlzs.model ==> fnlzs.model[k].link !in objs.Table())
      && (forall f :: f in ready ==> f.link !in objs.Table())
    }

    // The sweep: what is left in the table becomes pending, and its size moves
    // from one account to the other.
    method SweepTable() returns (n: nat)
      requires Sane(0) && Severed()
      modifies objs`hroots, objs`freeList, objs`count, objs`minObjAddr, objs`maxObjAddr, objs`pendingFreeSize, this`markedBytes
      ensures Sane(0) && objs.count == 0 && n == old(objs.count)
      ensures old(objs.count) != 0 ==> objs.minObjAddr == w.Modulus() - 1 && objs.maxObjAddr == PAGE
      ensures objs.Live() == old(objs.Live()) - old(objs.Table())
      ensures forall o :: o in objs.freeList <==> o in old(objs.freeList) || o in old(objs.Table())
      ensures old(Accounts()) && Bytes(w, Flatten(old(objs.hroots))) < w.Tag() ==> markedBytes == objs.LiveBytes() && objs.PendingExact()
      ensures ObjectBytes() == old(ObjectBytes())
    {
      hide Sane, Severed, ObjHtable.Valid, ObjHtable.Tracked, ObjHtable.Table, ObjHtable.Live, ObjHtable.LiveBytes, Bytes, Flatten, ChainTable<ObjLink>.Valid, DataRoots.Valid;
      NoBytes(w);
      Pieces(0);
      objs.CountIsTable();
      objs.ListsApart();
      var marked := markedBytes + bytesAllocd;
      n := 0;
      if objs.count != 0 {
        var removed;
        var pending := objs.pendingFreeSize + marked;
        n, removed := objs.RemoveAll();
        BelowTag(w, Bytes(w, Flatten(old(objs.hroots))));
        marked := Sub(w, marked, removed);
        objs.pendingFreeSize := Sub(w, pending, marked);
      }
      markedBytes := marked;
      Swept();
    }

    twostate lemma Swept()
      requires old(Sane(0)) && old(Severed()) && objs.Valid() && objs.Table() == {} && Flatten(objs.hroots) == []
      requires forall o :: o in objs.followList || o in objs.markedList ==> o !in old(objs.Table())
      requires Bytes(w, objs.freeList) == old(Bytes(w, objs.freeList)) + Bytes(w, Flatten(old(objs.hroots)))
      requires unchanged(objs`followList, objs`markedList, objs`log2Size, dlinks, fnlzs, roots)
      requires unchanged(this`totalHeap, this`freeBytes, this`maxHeap, this`blockBytes, this`spareFinalizer, this`ready, this`bytesAllocd)
      ensures Sane(0) && objs.Live() == old(objs.Live()) - old(objs.Table())
      ensures objs.LiveBytes() + Bytes(w, Flatten(old(objs.hroots))) == old(objs.LiveBytes())
    {
      hide ObjHtable.Valid, ObjHtable.Tracked, ObjHtable.Table, ObjHtable.Live, ObjHtable.LiveBytes, ChainTable<ObjLink>.Valid, DataRoots.Valid, Bytes, Flatten, TableBytes;
      objs.SweptLive();
    }

    // The object table doubles while it is empty, if many objects survived:
    // more than half of those there were before, of which n were removed, and
    // these before were three quarters of its buckets.  It stays as it is if there
    // is no memory for the larger one.
    predicate Crowded(before: nat, n: nat)
      requires objs.log2Size >= 2
      reads objs`log2Size
    {
      before / 2 + n < before && 3 * Pow2(objs.log2Size - 2) <= before
    }

    // settled says that nothing was tried.
    method GrowIfCrowded(before: nat, n: nat) returns (settled: bool)
      requires Sane(0) && objs.count == 0
      modifies objs`hroots, objs`log2Size, objs`freeList, objs`unlinkedList, objs`pendingFreeSize
      modifies dlinks`hroots, dlinks`count, dlinks`model, this`freeBytes, this`totalHeap, this`spareDlinks
      ensures Sane(0) && OnlyFreed() && objs.count == 0
      ensures forall o :: o in objs.freeList ==> o in old(objs.freeList)
      ensures old(objs.PendingExact()) && Bytes(w, old(objs.freeList)) < w.Tag() ==> objs.PendingExact()
      ensures old(objs.log2Size) >= 2 && (settled <==> !old(Crowded(before, n)))
      ensures settled ==> unchanged(this, objs, dlinks)
      ensures objs.log2Size == old(objs.log2Size) || (!settled && objs.log2Size == old(objs.log2Size) + 1)
      ensures Bytes(w, objs.freeList) <= Bytes(w, old(objs.freeList))
      ensures totalHeap >= old(totalHeap)
    {
      hide Sane, TableBytes, Bytes, Pow2, ObjHtable.Valid, ObjHtable.Table, ObjHtable.Live, ObjHtable.LiveBytes, ObjHtable.Tracked, ObjHtable.PendingExact;
      settled := true;
      IndexSizes(0);
      if Crowded(before, n) {
        settled := false;
        var ok := AllocHroots(objs.log2Size + 1, 0);
        if ok {
          GrowEmpty();
        }
      }
    }

    method GrowEmpty()
      requires Sane(TableBytes(w, objs.log2Size + 1)) && objs.count == 0
      modifies objs`hroots, objs`log2Size, this`freeBytes
      ensures Sane(0) && objs.Live() == old(objs.Live()) && objs.LiveBytes() == old(objs.LiveBytes())
      ensures objs.log2Size == old(objs.log2Size) + 1
    {
      hide TableBytes, Bytes, Pow2, ObjHtable.Valid, ObjHtable.Table, ObjHtable.Live, ObjHtable.LiveBytes, ObjHtable.Tracked, ChainTable<ObjLink>.Valid, DataRoots.Valid;
      var old_ := objs.log2Size;
      objs.Grow();
      objs.LiveKept();
      freeBytes := freeBytes + TableBytes(w, old_);
    }

    // Marking changes nothing that the invariants speak of.
    twostate lemma SaneMarked(extra: nat)
      requires old(Sane(extra)) && objs.Valid() && objs.Tracked() == old(objs.Tracked()) && objs.LiveBytes() == old(objs.LiveBytes())
      requires unchanged(objs`freeList, objs`log2Size, dlinks, fnlzs, roots)
      requires unchanged(this`totalHeap, this`freeBytes, this`maxHeap, this`blockBytes, this`spareFinalizer, this`ready)
      ensures Sane(extra) && objs.Live() == old(objs.Live())
    {
      hide ObjHtable.Valid, ObjHtable.Tracked, ObjHtable.Live, ObjHtable.LiveBytes, ChainTable<ObjLink>.Valid, DataRoots.Valid, Bytes, TableBytes;
      objs.LiveKept();
    }

    // What the invariants say about finalizers.
    lemma FinalizersSane(extra: nat)
      requires Sane(extra)
      ensures forall f :: f in ready ==> f.link in objs.Live() && 0 < f.link.obj < w.Modulus() && f.client < w.Modulus()
      ensures forall k :: k in fnlzs.model ==>
        var f := fnlzs.model[k];
        f.link in objs.Live() && f.link.at == k && 0 < f.link.obj < w.Modulus() && f.client < w.Modulus()
      ensures forall k :: k in dlinks.model ==> dlinks.model[k] in objs.Live() && k < w.Modulus()
    {
      hide ObjHtable.Valid, ObjHtable.Live, ChainTable<ObjLink>.Valid, DataRoots.Valid, Ledger;
      objs.LiveSound();
    }

    // From the refilled table to the end of marking: precollection, the test
    // whether to go on, and the scan.
    method MarkPhase(stack: seq<Root>, mayStop: bool, ghost g: Graph, ghost t: set<ObjLink>, ghost seeds: set<ObjLink>)
      returns (stopped: bool, scanned: bool)
      requires Sane(0) && objs.followList == [] && objs.markedList == []
      requires g == Graph(objs.TheView(), mem, interior) && t == objs.Table() == objs.Live() && seeds == Seeds(stack, g, t)
      modifies objs`hroots, objs`count, objs`markedList, objs`followList
      ensures Sane(0) && objs.Live() == t && InMark(g, t, g.Reach(t, seeds)) && OnlyMarked() && (!mayStop ==> !stopped)
      ensures !stopped ==> objs.Table() == t - g.Reach(t, seeds)
      ensures !stopped && scanned ==> objs.followList == []
      ensures !stopped && !scanned ==> objs.Table() == {}
    {
      hide Sane, ObjHtable.Valid, ObjHtable.Tracked, ObjHtable.Live, ObjHtable.LiveBytes, ObjHtable.Table, ObjHtable.Marking, ObjHtable.Anchored, DataRoots.Valid;
      hide ReadySeed, TableSeed, RegionSeed, Graph.Reach, ChainTable<Finalizer>.Valid;
      Pieces(0);
      FinalizersSane(0);
      g.ReachClosed(t, seeds);
      MarkStart(g, t, g.Reach(t, seeds));
      stopped, scanned := false, false;
      var bytes := PreCollect(g, t, g.Reach(t, seeds));
      objs.CountIsTable();
      if objs.count != 0 {
        if mayStop && (bytes != 0 || fnlzs.count != 0) {
          stopped := *;
        }
        if !stopped {
          stopped := ScanPhase(stack, mayStop, g, t, seeds);
          scanned := true;
        }
      } else {
        InMarkGone(g, t, g.Reach(t, seeds));
      }
      SaneMarked(0);
    }

    lemma MarkStart(g: Graph, t: set<ObjLink>, r: set<ObjLink>)
      requires Sane(0) && objs.followList == [] && t == objs.Table()
      requires g == Graph(objs.TheView(), mem, interior) && g.Closed(t, r)
      ensures InMark(g, t, r)
    {
      hide Attached, Ledger, ObjHtable.Valid, ObjHtable.Table;
      if t != {} {
        var o :| o in t;
        objs.TableBounds(o);
      }
    }

    lemma InMarkGone(g: Graph, t: set<ObjLink>, r: set<ObjLink>)
      requires InMark(g, t, r)
      ensures t - objs.Table() <= r
    {
    }

    // GC_dlink_scan_clear with its accounts.
    method ClearDead()
      requires Sane(0)
      modifies dlinks`hroots, dlinks`count, dlinks`model, this`mem, this`freeBytes, this`spareDlinks
      ensures Sane(0) && Cleared(old(dlinks.model), old(mem), objs.Table())
      ensures forall k :: k in dlinks.model ==> dlinks.model[k] !in objs.Table()
    {
      hide Sane, Cleared, ObjHtable.Valid, ObjHtable.Table, ObjHtable.Live, ChainTable<ObjLink>.Valid, DataRoots.Valid;
      Pieces(0);
      FinalizersSane(0);
      NothingCleared();
      NoLinksNoCount();
      if dlinks.count != 0 {
        var n := ScanClear();
        spareDlinks := spareDlinks + n;
        freeBytes := freeBytes + ThreeWords(w, n);
        SaneCleared(n);
      }
    }

    lemma NothingCleared()
      ensures Cleared(dlinks.model, mem, objs.Table())
    {
    }

    twostate lemma SaneCleared(n: nat)
      requires old(Sane(0)) && dlinks.Valid() && dlinks.count + n == old(dlinks.count) && unchanged(objs, fnlzs, roots, dlinks`log2Size)
      requires Cleared(old(dlinks.model), old(mem), objs.Table()) && freeBytes == old(freeBytes) + ThreeWords(w, n)
      requires unchanged(this`totalHeap, this`maxHeap, this`blockBytes, this`spareFinalizer, this`ready)
      ensures Sane(0)
    {
      hide ObjHtable.Valid, ObjHtable.Table, ObjHtable.Live, ObjHtable.LiveBytes, ChainTable<ObjLink>.Valid, DataRoots.Valid, Bytes, TableBytes;
    }

    // Marking goes on after words have been cleared, for a larger goal.
    lemma Remarked(g: Graph, g2: Graph, t: set<ObjLink>, r1: set<ObjLink>, fin: set<ObjLink>)
      requires objs.w == w && objs.Valid() && objs.Marking(g, t, r1) && (t != {} ==> objs.Anchored())
      requires g.view == g2.view == objs.TheView() && g.interior == g2.interior
      requires forall a: nat :: g2.mem(a) == g.mem(a) || g2.mem(a) == 0
      ensures objs.Marking(g2, t, r1 + g2.Reach(t, fin))
    {
      hide Graph.Reach, ObjHtable.Valid, ObjHtable.Table, ObjHtable.Anchored, Graph.Edge;
      var r2 := r1 + g2.Reach(t, fin);
      g2.ReachClosed(t, fin);
      if t != {} {
        objs.NullOutOfRange();
        ClearedClosed(g, g2, t, r1);
        EdgesBack(g, g2);
      }
    }

    lemma EdgesBack(g: Graph, g2: Graph)
      requires g.view == g2.view && g.interior == g2.interior && !g.view.InRange(0)
      requires forall a: nat :: g2.mem(a) == g.mem(a) || g2.mem(a) == 0
      ensures forall p, o :: g2.Edge(p, o) ==> g.Edge(p, o)
    {
      hide View.Pointed;
      forall p, o | g2.Edge(p, o) ensures g.Edge(p, o) {
        ClearedPoints(g.view, g.mem, g2.mem, g.interior, p.obj, p.ScanEnd(g.view.w), o);
      }
    }

    // GC_fnlz_after_collect with its accounts.
    method ReadyCounted(ghost g: Graph, ghost t: set<ObjLink>, ghost r: set<ObjLink>)
      requires Sane(0) && InMark(g, t, r) && t == objs.Live() && forall k :: k in fnlzs.model ==> fnlzs.model[k].link in r
      modifies objs`hroots, objs`count, objs`markedList, objs`followList
      modifies fnlzs`hroots, fnlzs`count, fnlzs`model, this`ready, this`hasClients, this`freeBytes
      ensures Sane(0) && InMark(g, t, r) && OnlyMarked() && objs.Live() == t
      ensures Readied(old(fnlzs.model), old(ready), old(objs.Table())) && MarkedSince(old(fnlzs.model), old(objs.Table()))
      ensures forall k :: k in fnlzs.model ==> fnlzs.model[k].link !in old(objs.Table())
      ensures FlagKept()
    {
      hide Sane, InMark, Readied, MarkedSince, Registered, ObjHtable.Valid, ObjHtable.Table, ObjHtable.Tracked, ObjHtable.Live, ObjHtable.LiveBytes, DataRoots.Valid;
      hide ChainTable<Finalizer>.Valid;
      Pieces(0);
      RegisteredSane(t, r);
      var n := AfterCollect(g, t, r);
      freeBytes := freeBytes + FourWords(w, n);
      TableWithin(g, t, r);
      SaneReadied(n);
    }

    // The finalizers of dead objects become ready, if there are finalizers.
    method ReadyDead(ghost g: Graph, ghost t: set<ObjLink>, ghost r: set<ObjLink>)
      requires Sane(0) && InMark(g, t, r) && t == objs.Live() && forall k :: k in fnlzs.model ==> fnlzs.model[k].link in r
      modifies objs`hroots, objs`count, objs`markedList, objs`followList
      modifies fnlzs`hroots, fnlzs`count, fnlzs`model, this`ready, this`hasClients, this`freeBytes
      ensures Sane(0) && InMark(g, t, r) && OnlyMarked() && objs.Live() == t
      ensures Readied(old(fnlzs.model), old(ready), old(objs.Table()))
      ensures objs.Table() == old(objs.Table()) - old(Finalizable(fnlzs.model, objs.Table()))
      ensures forall k :: k in fnlzs.model ==> fnlzs.model[k].link !in old(objs.Table())
      ensures FlagKept()
    {
      hide Sane, InMark, Readied, MarkedSince, ObjHtable.Table, ObjHtable.Tracked, ObjHtable.Live, ObjHtable.LiveBytes, Finalizable;
      NoFinalizers();
      TableWithin(g, t, r);
      if fnlzs.count != 0 {
        ReadyCounted(g, t, r);
        MarkedFinalizable(t);
      }
    }

    lemma RegisteredSane(t: set<ObjLink>, r: set<ObjLink>)
      requires Sane(0) && t == objs.Live() && forall k :: k in fnlzs.model ==> fnlzs.model[k].link in r
      ensures Registered(fnlzs.model, t, r)
    {
      hide Sane, ObjHtable.Live;
      FinalizersSane(0);
      LiveDistinct(0);
    }

    lemma NoFinalizers()
      requires Sane(0)
      ensures Readied(fnlzs.model, ready, objs.Table())
      ensures fnlzs.count == 0 ==> fnlzs.model == map[] && Finalizable(fnlzs.model, objs.Table()) == {}
    {
      hide ObjHtable.Valid, ObjHtable.Table, ObjHtable.Live, ChainTable<Finalizer>.Valid, DataRoots.Valid, Ledger, Attached;
      FinalizerCount();
      NoneReady();
    }

    lemma LiveDistinct(extra: nat)
      requires Sane(extra)
      ensures forall o :: o in objs.Live() ==> 0 < o.obj < w.Modulus()
      ensures forall o, p :: o in objs.Live() && p in objs.Live() && o.obj == p.obj ==> o == p
    {
      hide ObjHtable.Valid, ObjHtable.Live, ChainTable<ObjLink>.Valid, DataRoots.Valid, Ledger, Attached;
      objs.LiveSound();
      forall o, p | o in objs.Live() && p in objs.Live() && o.obj == p.obj ensures o == p {
        assert o.Covers(w, o.obj) && p.Covers(w, o.obj);
      }
    }

    twostate lemma MarkedFinalizable(t: set<ObjLink>)
      requires old(Sane(0)) && old(objs.Table()) <= t == old(objs.Live())
      requires MarkedSince(old(fnlzs.model), old(objs.Table()))
      requires Readied(old(fnlzs.model), old(ready), old(objs.Table()))
      requires forall k :: k in fnlzs.model ==> fnlzs.model[k].link !in old(objs.Table())
      ensures objs.Table() == old(objs.Table()) - old(Finalizable(fnlzs.model, objs.Table()))
    {
      hide ObjHtable.Valid, ObjHtable.Live, ObjHtable.Table, ChainTable<ObjLink>.Valid, DataRoots.Valid, Ledger;
    }

    twostate lemma SaneReadied(n: nat)
      requires old(Sane(0)) && objs.Valid() && fnlzs.Valid() && fnlzs.count + n == old(fnlzs.count)
      requires objs.Tracked() == old(objs.Tracked()) && objs.LiveBytes() == old(objs.LiveBytes())
      requires unchanged(objs`freeList, objs`log2Size, dlinks, roots, fnlzs`log2Size)
      requires Readied(old(fnlzs.model), old(ready), old(objs.Table())) && freeBytes == old(freeBytes) + FourWords(w, n)
      requires unchanged(this`totalHeap, this`maxHeap, this`blockBytes, this`spareFinalizer)
      ensures Sane(0) && objs.Live() == old(objs.Live())
    {
      hide ObjHtable.Valid, ObjHtable.Tracked, ObjHtable.Table, ObjHtable.Live, ObjHtable.LiveBytes, ChainTable<ObjLink>.Valid, DataRoots.Valid, Bytes, TableBytes;
      objs.LiveKept();
      forall f | f in ready ensures FinalizerOk(f) {
        var m := |ready| - |old(ready)|;
        assert ready == ready[..m] + ready[m..];
        if f in ready[..m] {
          assert f.link.at in old(fnlzs.model) && old(fnlzs.model)[f.link.at] == f;
        }
      }
    }

    // What marking reaches once finalizers have been made ready: what the roots
    // reach, and what the finalizable objects reach in the memory as cleared.
    ghost function Survivors(g: Graph, t: set<ObjLink>, seeds: set<ObjLink>, fin: set<ObjLink>): set<ObjLink>
      reads this`mem
    {
      g.Reach(t, seeds) + Graph(g.view, mem, g.interior).Reach(t, fin)
    }

    // Weak links and finalizers after a complete marking.
    method SeverPhase(ghost g: Graph, ghost t: set<ObjLink>, ghost seeds: set<ObjLink>) returns (ghost fin: set<ObjLink>)
      requires Sane(0) && InMark(g, t, g.Reach(t, seeds)) && t == objs.Live() && objs.Table() == t - g.Reach(t, seeds)
      modifies objs`hroots, objs`count, objs`markedList, objs`followList
      modifies dlinks`hroots, dlinks`count, dlinks`model, this`mem, this`freeBytes, this`spareDlinks
      modifies fnlzs`hroots, fnlzs`count, fnlzs`model, this`ready, this`hasClients
      ensures Sane(0) && OnlyMarked() && t == objs.Live()
      ensures InMark(Graph(g.view, mem, interior), t, Survivors(g, t, seeds, fin))
      ensures fin == old(Finalizable(fnlzs.model, objs.Table())) && objs.Table() == old(objs.Table()) - fin
      ensures Cleared(old(dlinks.model), old(mem), old(objs.Table())) && Readied(old(fnlzs.model), old(ready), old(objs.Table()))
      ensures forall k :: k in dlinks.model ==> dlinks.model[k] !in old(objs.Table())
      ensures forall k :: k in fnlzs.model ==> fnlzs.model[k].link !in old(objs.Table())
      ensures FlagKept()
    {
      hide Sane, Cleared, Readied, ObjHtable.Valid, ObjHtable.Table, ObjHtable.Tracked, ObjHtable.Live, ObjHtable.LiveBytes, ObjHtable.Marking, ObjHtable.Anchored, Graph.Reach, Finalizable;
      ClearDead();
      fin := Finalizable(fnlzs.model, objs.Table());
      ghost var g2 := Graph(g.view, mem, interior);
      ClearedWords(old(dlinks.model), old(mem), objs.Table());
      Remarked(g, g2, t, g.Reach(t, seeds), fin);
      FinalizersReached(t, g.Reach(t, seeds), g2, fin);
      ReadyDead(g2, t, Survivors(g, t, seeds, fin));
    }

    lemma ClearedWords(m0: map<nat, ObjLink>, mem0: Memory, dead: set<ObjLink>)
      requires Cleared(m0, mem0, dead)
      ensures forall a: nat :: mem(a) == mem0(a) || mem(a) == 0
    {
    }

    lemma FinalizersReached(t: set<ObjLink>, r1: set<ObjLink>, g2: Graph, fin: set<ObjLink>)
      requires Sane(0) && t == objs.Live() && objs.Table() == t - r1 && fin == Finalizable(fnlzs.model, objs.Table())
      ensures forall k :: k in fnlzs.model ==> fnlzs.model[k].link in r1 + g2.Reach(t, fin)
    {
      hide Sane, ObjHtable.Live, ObjHtable.Table, Graph.Reach;
      FinalizersSane(0);
      g2.ReachClosed(t, fin);
    }

    // The last marking, which is never stopped.
    method FinishMarking(ghost g: Graph, ghost t: set<ObjLink>, ghost seeds: set<ObjLink>, ghost fin: set<ObjLink>)
      requires Sane(0) && t == objs.Live() && g.view.w == w && g.interior == interior && fin <= t
      requires InMark(Graph(g.view, mem, interior), t, Survivors(g, t, seeds, fin))
      requires objs.Table() == t - g.Reach(t, seeds) - fin
      modifies objs`hroots, objs`count, objs`markedList, objs`followList
      ensures Sane(0) && OnlyMarked() && t == objs.Live() && objs.Table() == t - Survivors(g, t, seeds, fin)
    {
      hide Sane, ObjHtable.Valid, ObjHtable.Table, ObjHtable.Tracked, ObjHtable.Live, ObjHtable.LiveBytes, ObjHtable.Anchored, Graph.Reach, Graph.Edge;
      hide ObjHtable.Marking;
      ghost var g2 := Graph(g.view, mem, interior);
      NothingToFollow(g2, t, Survivors(g, t, seeds, fin));
      objs.ScanFollowable(mem, interior, t, Survivors(g, t, seeds, fin), false);
      FinishedMarking(g2, t, g.Reach(t, seeds), fin);
      SaneMarked(0);
    }

    lemma NothingToFollow(g: Graph, t: set<ObjLink>, r: set<ObjLink>)
      requires InMark(g, t, r)
      ensures objs.followList != [] ==> objs.Anchored()
    {
      hide ObjHtable.Valid, ObjHtable.Table, ObjHtable.Anchored, Graph.Edge;
      if objs.followList != [] {
        assert objs.followList[0] in objs.followList;
      }
    }

    lemma FinishedMarking(g2: Graph, t: set<ObjLink>, r1: set<ObjLink>, fin: set<ObjLink>)
      requires objs.Marking(g2, t, r1 + g2.Reach(t, fin)) && objs.followList == [] && fin <= t
      requires objs.Table() <= t - r1 - fin
      ensures objs.Table() == t - (r1 + g2.Reach(t, fin))
    {
      hide ObjHtable.Table, Graph.Reach, Graph.Edge;
      assert g2.Closed(t, t - objs.Table());
      g2.ReachLeast(t, fin, t - objs.Table());
    }

    // Weak links and finalizers, when the scan has not been needed because the
    // finalizers' own marks reached everything.
    lemma NothingDead(g: Graph, t: set<ObjLink>, seeds: set<ObjLink>)
      requires InMark(g, t, g.Reach(t, seeds)) && objs.Table() == {}
      ensures InMark(Graph(g.view, mem, interior), t, Survivors(g, t, seeds, {}))
      ensures Cleared(dlinks.model, mem, {}) && Readied(fnlzs.model, ready, {}) && Finalizable(fnlzs.model, {}) == {}
    {
      hide Graph.Reach, ObjHtable.Valid, ObjHtable.Table, ObjHtable.Marking, ObjHtable.Anchored;
      assert Graph(g.view, mem, interior) == g;
      g.ReachNone(t);
      assert g.Reach(t, seeds) + {} == g.Reach(t, seeds);
      assert ready[..0] == [];
    }

    // What happens to weak links and finalizers when the objects of dead are
    // found unmarked: exactly their links go, and these links' words become
    // zero; exactly their finalizers become ready, each once.
    ghost predicate Severing(links: map<nat, ObjLink>, mem0: Memory, finalizers: map<nat, Finalizer>, ready0: seq<Finalizer>, dead: set<ObjLink>)
      reads this`mem, this`ready, dlinks`model, fnlzs`model
    {
      && (forall k :: k in dlinks.model ==> k in links && links[k] == dlinks.model[k] && links[k] !in dead)
      && (forall a: nat :: mem(a) ==
           if a < w.Modulus() && Hide(w, a) in links && links[Hide(w, a)] in dead then 0 else mem0(a))
      && Readied(finalizers, ready0, dead)
      && (forall k :: k in fnlzs.model ==> fnlzs.model[k].link !in dead)
    }

    lemma SeveringNow(links: map<nat, ObjLink>, mem0: Memory, finalizers: map<nat, Finalizer>, ready0: seq<Finalizer>, dead: set<ObjLink>)
      requires Cleared(links, mem0, dead) && Readied(finalizers, ready0, dead)
      requires forall k :: k in dlinks.model ==> dlinks.model[k] !in dead
      requires forall k :: k in fnlzs.model ==> fnlzs.model[k].link !in dead
      ensures Severing(links, mem0, finalizers, ready0, dead)
      ensures forall k :: k in links && links[k] !in dead ==> k in dlinks.model
    {
      hide Readied;
    }

    // Nothing that is needed is left in the table.
    lemma SeveredNow(links: map<nat, ObjLink>, mem0: Memory, finalizers: map<nat, Finalizer>, ready0: seq<Finalizer>, dead: set<ObjLink>, kept: set<ObjLink>)
      requires Severing(links, mem0, finalizers, ready0, dead) && objs.Table() <= dead && objs.Table() !! kept
      requires forall f :: f in ready0 ==> f.link !in dead
      requires forall k :: k in finalizers && finalizers[k].link in dead ==> finalizers[k].link in kept
      ensures Severed()
    {
      hide ObjHtable.Table;
      forall f | f in ready ensures f.link !in objs.Table() {
        var m := |ready| - |ready0|;
        assert ready == ready[..m] + ready[m..];
        if f in ready[..m] {
          assert f.link.at in finalizers && finalizers[f.link.at] == f;
        }
      }
    }

    lemma SurvivorsWithin(g: Graph, t: set<ObjLink>, seeds: set<ObjLink>, fin: set<ObjLink>)
      requires fin <= t
      ensures fin <= Survivors(g, t, seeds, fin) <= t
    {
      hide Graph.Reach;
      g.ReachClosed(t, seeds);
      Graph(g.view, mem, g.interior).ReachClosed(t, fin);
    }

    // From a marking to its very end: weak links, finalizers, and what these
    // still keep.
    method CompleteMarking(scanned: bool, ghost g: Graph, ghost t: set<ObjLink>, ghost seeds: set<ObjLink>) returns (ghost fin: set<ObjLink>)
      requires Sane(0) && InMark(g, t, g.Reach(t, seeds)) && t == objs.Live() && objs.Table() == t - g.Reach(t, seeds)
      requires forall f :: f in ready ==> f.link !in objs.Table()
      requires !scanned ==> objs.Table() == {}
      modifies objs`hroots, objs`count, objs`markedList, objs`followList
      modifies dlinks`hroots, dlinks`count, dlinks`model, this`mem, this`freeBytes, this`spareDlinks
      modifies fnlzs`hroots, fnlzs`count, fnlzs`model, this`ready, this`hasClients
      ensures Sane(0) && OnlyMarked() && objs.Live() == t && objs.Table() == t - Survivors(g, t, seeds, fin) && Survivors(g, t, seeds, fin) <= t
      ensures fin == old(Finalizable(fnlzs.model, objs.Table()))
      ensures Severing(old(dlinks.model), old(mem), old(fnlzs.model), old(ready), old(objs.Table()))
      ensures forall k :: k in old(dlinks.model) && old(dlinks.model)[k] !in old(objs.Table()) ==> k in dlinks.model
      ensures Severed()
      ensures FlagKept()
    {
      hide Sane, Cleared, Readied, Severing, Severed, InMark, ObjHtable.Valid, ObjHtable.Table, ObjHtable.Tracked, ObjHtable.Live, ObjHtable.LiveBytes, Graph.Reach, Finalizable;
      TableWithin(g, t, g.Reach(t, seeds));
      if scanned {
        fin := SeverPhase(g, t, seeds);
      } else {
        NothingDead(g, t, seeds);
        fin := {};
      }
      SeveringNow(old(dlinks.model), old(mem), old(fnlzs.model), old(ready), old(objs.Table()));
      FinalizableWithin(old(fnlzs.model), old(objs.Table()));
      SurvivorsWithin(g, t, seeds, fin);
      FinishMarking(g, t, seeds, fin);
      SeveredNow(old(dlinks.model), old(mem), old(fnlzs.model), old(ready), old(objs.Table()), Survivors(g, t, seeds, fin));
    }

    // All bytes of objects, pending ones included.
    ghost function ObjectBytes(): nat
      reads objs`hroots, objs`followList, objs`markedList, objs`freeList
    {
      objs.LiveBytes() + Bytes(w, objs.freeList)
    }

    // The sweep and the growth after it.
    method SweepAndGrow(before: nat) returns (ghost settled: bool)
      requires Sane(0) && Severed()
      modifies objs, dlinks`hroots, dlinks`count, dlinks`model
      modifies this`markedBytes, this`freeBytes, this`totalHeap, this`spareDlinks
      ensures Sane(0) && objs.Live() == old(objs.Live()) - old(objs.Table())
      ensures forall k :: k in dlinks.model ==> k in old(dlinks.model) && dlinks.model[k] == old(dlinks.model)[k]
      ensures forall o :: o in objs.freeList ==> o in old(objs.freeList) || o in old(objs.Table())
      ensures settled ==> dlinks.model == old(dlinks.model)
      ensures settled ==> forall o :: o in old(objs.freeList) || o in old(objs.Table()) ==> o in objs.freeList
      ensures old(Accounts()) && old(ObjectBytes()) < w.Tag() ==> markedBytes == objs.LiveBytes() && objs.PendingExact()
      ensures |objs.unlinkedList| >= |old(objs.unlinkedList)| && ObjectBytes() <= old(ObjectBytes()) && totalHeap >= old(totalHeap)
      ensures !settled ==> old(objs.log2Size) >= 2 && 3 * Pow2(old(objs.log2Size) - 2) <= before
    {
      hide Sane, Severed, ObjHtable.Valid, ObjHtable.Table, ObjHtable.Tracked, ObjHtable.Live, ObjHtable.LiveBytes, ObjHtable.PendingExact, Bytes, Flatten, Pow2;
      SameWidth(0);
      objs.TableBytesWithin();
      var n := SweepTable();
      settled := GrowIfCrowded(before, n);
    }

    // The end of GC_collect_unreachable: sweep, growth, accounts.
    method SweepPhase(before: nat) returns (ghost settled: bool)
      requires Sane(0) && Severed()
      modifies objs, dlinks`hroots, dlinks`count, dlinks`model
      modifies this`markedBytes, this`bytesAllocd, this`allocdBefore, this`freeBytes, this`totalHeap, this`spareDlinks
      ensures Sane(0) && objs.Live() == old(objs.Live()) - old(objs.Table())
      ensures forall k :: k in dlinks.model ==> k in old(dlinks.model) && dlinks.model[k] == old(dlinks.model)[k]
      ensures forall o :: o in objs.freeList ==> o in old(objs.freeList) || o in old(objs.Table())
      ensures settled ==> dlinks.model == old(dlinks.model)
      ensures settled ==> forall o :: o in old(objs.freeList) || o in old(objs.Table()) ==> o in objs.freeList
      ensures old(Accounts()) && old(ObjectBytes()) < w.Tag() ==> Accounts()
      ensures bytesAllocd == 0 && maxHeap == old(maxHeap) && |objs.unlinkedList| >= |old(objs.unlinkedList)|
      ensures ObjectBytes() <= old(ObjectBytes())
      ensures totalHeap >= old(totalHeap)
      ensures !settled ==> old(objs.log2Size) >= 2 && 3 * Pow2(old(objs.log2Size) - 2) <= before
    {
      hide Sane, Severed, ObjHtable.Valid, ObjHtable.Table, ObjHtable.Tracked, ObjHtable.Live, ObjHtable.LiveBytes, ObjHtable.PendingExact, Bytes, Flatten, Pow2;
      settled := SweepAndGrow(before);
      allocdBefore := allocdBefore + bytesAllocd;
      bytesAllocd := 0;
    }

    twostate lemma SeveringKept(links: map<nat, ObjLink>, new mem0: Memory, new finalizers: map<nat, Finalizer>, new ready0: seq<Finalizer>, new dead: set<ObjLink>)
      requires old(Severing(links, mem0, finalizers, ready0, dead)) && unchanged(this`mem, this`ready, fnlzs`model)
      requires forall k :: k in dlinks.model ==> k in old(dlinks.model) && dlinks.model[k] == old(dlinks.model)[k]
      ensures Severing(links, mem0, finalizers, ready0, dead)
    {
      hide Readied;
    }

    lemma RefilledTable(g: Graph, t: set<ObjLink>)
      requires Sane(0) && t == objs.Table() && g.view == objs.TheView()
      ensures g.view.w == w && forall o :: o in t ==> o.Ok(w) && g.view.Bounded(o)
    {
      hide ObjHtable.Valid, ObjHtable.Table, ObjLink.Ok, View.Bounded, Attached, Ledger;
      forall o | o in t ensures o.Ok(w) && g.view.Bounded(o) {
        objs.TrackedTable(o);
        objs.TableBounds(o);
      }
    }

    // Objects of ready finalizers are seeds.
    lemma ReadyReached(stack: seq<Root>, g: Graph, t: set<ObjLink>, seeds: set<ObjLink>)
      requires Sane(0) && t == objs.Live() && seeds == Seeds(stack, g, t) && objs.Table() == t - g.Reach(t, seeds)
      ensures forall f :: f in ready ==> f.link !in objs.Table()
    {
      hide Sane, ObjHtable.Table, ObjHtable.Live, Graph.Reach, RegionSeed, TableSeed, ClientSeed;
      FinalizersSane(0);
      g.ReachClosed(t, seeds);
      forall f | f in ready ensures f.link in g.Reach(t, seeds) {
        assert ReadySeed(ready, g, f.link);
      }
    }

    // From a complete marking to the end.
    method CollectRest(before: nat, scanned: bool, ghost g: Graph, ghost t: set<ObjLink>, ghost seeds: set<ObjLink>)
      returns (ghost fin: set<ObjLink>, ghost settled: bool)
      requires Sane(0) && InMark(g, t, g.Reach(t, seeds)) && t == objs.Live() && objs.Table() == t - g.Reach(t, seeds)
      requires forall f :: f in ready ==> f.link !in objs.Table()
      requires !scanned ==> objs.Table() == {}
      modifies this, objs, dlinks`hroots, dlinks`count, dlinks`model, fnlzs`hroots, fnlzs`count, fnlzs`model
      ensures Sane(0) && maxHeap == old(maxHeap) && spareFinalizer == old(spareFinalizer) && objs.Live() == Survivors(g, t, seeds, fin)
      ensures |objs.unlinkedList| >= |old(objs.unlinkedList)|
      ensures fin == old(Finalizable(fnlzs.model, objs.Table()))
      ensures Severing(old(dlinks.model), old(mem), old(fnlzs.model), old(ready), old(objs.Table()))
      ensures settled ==> forall k :: k in old(dlinks.model) && old(dlinks.model)[k] !in old(objs.Table()) ==> k in dlinks.model
      ensures forall o :: o in objs.freeList ==> o in old(objs.freeList) || o in t - objs.Live()
      ensures settled ==> forall o :: o in old(objs.freeList) || o in t - objs.Live() ==> o in objs.freeList
      ensures old(Accounts()) && old(ObjectBytes()) < w.Tag() ==> Accounts()
      ensures ObjectBytes() <= old(ObjectBytes())
      ensures FlagKept()
      ensures totalHeap >= old(totalHeap)
      ensures !settled ==> old(objs.log2Size) >= 2 && 3 * Pow2(old(objs.log2Size) - 2) <= before
    {
      hide Sane, Severed, Severing, InMark, Survivors, ObjHtable.Valid, ObjHtable.Table, ObjHtable.Tracked, ObjHtable.Live, ObjHtable.LiveBytes, ObjHtable.PendingExact, Bytes, Flatten, Graph.Reach, Finalizable, Pow2;
      fin := CompleteMarking(scanned, g, t, seeds);
      gcNo := gcNo + 1;
      label Complete:
      settled := SweepPhase(before);
      SeveringKept@Complete(old(dlinks.model), old(mem), old(fnlzs.model), old(ready), old(objs.Table()));
    }

    // A collection that has run to its end: g is what it found, seeds what it
    // started from, fin the objects whose finalizers became ready.
    twostate predicate Completed(stack: seq<Root>, new g: Graph, new seeds: set<ObjLink>, new fin: set<ObjLink>)
      reads this`mem, objs`hroots, objs`followList, objs`markedList
    {
      && g.mem == old(mem) && g.interior == interior && g.view.w == w && g.view.log2 == old(objs.log2Size)
      && (forall o :: o in old(objs.Live()) ==> o.Ok(w) && g.view.Bounded(o))
      && seeds == old(Seeds(stack, g, objs.Live()))
      && fin == old(Finalizable(fnlzs.model, objs.Live() - g.Reach(objs.Live(), seeds)))
      && objs.Live() == Survivors(g, old(objs.Live()), seeds, fin)
    }

    method CollectNow(stack: seq<Root>, mayStop: bool)
      returns (completed: bool, ghost g: Graph, ghost seeds: set<ObjLink>, ghost fin: set<ObjLink>, ghost settled: bool)
      requires Sane(0)
      modifies this, objs, dlinks`hroots, dlinks`count, dlinks`model, fnlzs`hroots, fnlzs`count, fnlzs`model
      ensures Sane(0) && maxHeap == old(maxHeap) && spareFinalizer == old(spareFinalizer)
      ensures !mayStop ==> completed
      ensures old(Accounts()) && old(ObjectBytes()) < w.Tag() ==> Accounts()
      ensures ObjectBytes() <= old(ObjectBytes()) && |objs.unlinkedList| >= |old(objs.unlinkedList)|
      ensures FlagKept()
      // stopped half-way: nothing has happened to any object
      ensures !completed ==>
        && objs.Tracked() == old(objs.Tracked()) && objs.Live() == old(objs.Live()) && objs.freeList == old(objs.freeList)
        && unchanged(dlinks, fnlzs, this`ready, this`mem)
      // completed: everything not reached is garbage
      ensures completed ==> Completed(stack, g, seeds, fin)
      ensures completed ==> forall o :: o in objs.freeList ==> o in old(objs.freeList) || o in old(objs.Live()) - objs.Live()
      ensures completed && settled ==> forall o :: o in old(objs.freeList) || o in old(objs.Live()) - objs.Live() ==> o in objs.freeList
      // weak links and finalizers
      ensures completed ==>
        Severing(old(dlinks.model), old(mem), old(fnlzs.model), old(ready), old(objs.Live()) - g.Reach(old(objs.Live()), seeds))
      ensures completed && settled ==> forall k ::
        k in old(dlinks.model) && old(dlinks.model)[k] in g.Reach(old(objs.Live()), seeds) ==> k in dlinks.model
      ensures totalHeap >= old(totalHeap)
      ensures !settled ==> old(objs.log2Size) >= 2 && 3 * Pow2(old(objs.log2Size) - 2) <= |old(objs.Tracked())|
    {
      hide Sane, Severed, Severing, InMark, Seeds, Survivors, ObjHtable.Valid, ObjHtable.Table, ObjHtable.Tracked, ObjHtable.Live, ObjHtable.LiveBytes, ObjHtable.PendingExact, Bytes, Flatten, Graph.Reach, Finalizable, View.Bounded, ObjLink.Ok, ChainTable<ObjLink>.Valid, DataRoots.Valid, Pow2;
      completed, g, seeds, fin, settled := false, Graph(objs.TheView(), mem, interior), {}, {}, true;
      Pieces(0);
      ghost var t := objs.Live();
      var stopped := RefillAll(mayStop);
      SaneMarked(0);
      objs.CountTracked();
      var before := objs.count;
      if !stopped {
        g := Graph(objs.TheView(), mem, interior);
        seeds := Seeds(stack, g, t);
        RefilledTable(g, t);
        var scanned;
        stopped, scanned := MarkPhase(stack, mayStop, g, t, seeds);
        if !stopped {
          ReadyReached(stack, g, t, seeds);
          fin, settled := CollectRest(before, scanned, g, t, seeds);
          completed := true;
        }
      }
    }

    // GC_collect_unreachable, between mutator suspension and resumption for one
    // thread; stack is what its frames cover.  completed says that the
    // collection was not stopped half-way.
    method Collect(stack: seq<Root>, mayStop: bool)
      returns (completed: bool, ghost g: Graph, ghost seeds: set<ObjLink>, ghost fin: set<ObjLink>, ghost settled: bool)
      requires Sane(0)
      modifies this, objs, dlinks`hroots, dlinks`count, dlinks`model, fnlzs`hroots, fnlzs`count, fnlzs`model
      ensures Sane(0) && maxHeap == old(maxHeap) && spareFinalizer == old(spareFinalizer)
      ensures old(roots.list) != [] && !mayStop ==> completed
      ensures old(Accounts()) && old(ObjectBytes()) < w.Tag() ==> Accounts()
      ensures ObjectBytes() <= old(ObjectBytes()) && |objs.unlinkedList| >= |old(objs.unlinkedList)|
      ensures FlagKept()
      // stopped half-way: nothing has happened to any object
      ensures !completed ==>
        && objs.Tracked() == old(objs.Tracked()) && objs.Live() == old(objs.Live()) && objs.freeList == old(objs.freeList)
        && unchanged(dlinks, fnlzs, this`ready, this`mem)
      // completed: everything not reached is garbage
      ensures completed ==> Completed(stack, g, seeds, fin)
      ensures completed ==> forall o :: o in objs.freeList ==> o in old(objs.freeList) || o in old(objs.Live()) - objs.Live()
      ensures completed && settled ==> forall o :: o in old(objs.freeList) || o in old(objs.Live()) - objs.Live() ==> o in objs.freeList
      // weak links and finalizers
      ensures completed ==>
        Severing(old(dlinks.model), old(mem), old(fnlzs.model), old(ready), old(objs.Live()) - g.Reach(old(objs.Live()), seeds))
      ensures completed && settled ==> forall k ::
        k in old(dlinks.model) && old(dlinks.model)[k] in g.Reach(old(objs.Live()), seeds) ==> k in dlinks.model
      ensures totalHeap >= old(totalHeap)
      ensures !settled ==> old(objs.log2Size) >= 2 && 3 * Pow2(old(objs.log2Size) - 2) <= |old(objs.Tracked())|
    {
      hide Sane, Severed, Severing, InMark, Seeds, Survivors, Accounts, ObjHtable.Valid, ObjHtable.Table, ObjHtable.Tracked, ObjHtable.Live, ObjHtable.LiveBytes, ObjHtable.PendingExact, Bytes, Flatten, Graph.Reach, Finalizable, View.Bounded, ObjLink.Ok, Pow2;
      completed, g, seeds, fin, settled := false, Graph(objs.TheView(), mem, interior), {}, {}, true;
      if roots.list != [] {
        var stop := false;
        if mayStop {
          stop := *;
        }
        if !stop {
          completed, g, seeds, fin, settled := CollectNow(stack, mayStop);
        }
        if bytesAllocd == 0 {
          recycling := true;
        }
      }
    }

    // Word k of region r is a pointer to the base of o, and not a weak one.
    ghost predicate Holds(r: Root, k: nat, o: ObjLink)
      reads this`mem, dlinks`model
    {
      var a := r.begin + k * w.Bytes();
      a < r.end && Load(w, mem, a) == o.obj && (a < w.Modulus() ==> Hide(w, a) !in dlinks.model)
    }

    // Some word of the stack is.
    ghost predicate Held(stack: seq<Root>, o: ObjLink)
      reads this`mem, dlinks`model
    {
      exists r, k: nat :: r in stack && Holds(r, k, o)
    }

    // What the stack holds is a seed of every collection.
    twostate lemma HeldSeed(stack: seq<Root>, new g: Graph, new t: set<ObjLink>, new o: ObjLink)
      requires o in t && old(Held(stack, o)) && g.mem == old(mem) && g.view.w == w && o.Ok(w) && g.view.Bounded(o)
      ensures o in old(Seeds(stack, g, t))
    {
      hide View.Pointed, ReadySeed, TableSeed, ObjLink.Ok, View.Bounded;
      var r, k: nat :| r in stack && old(Holds(r, k, o));
      Graph(g.view, g.mem, true).ProperIsPointed(r.begin, r.end, k, o);
      assert RegionSeed(stack, true, g, o);
    }

    // What the roots hold is one, too.
    twostate lemma RootHeldSeed(stack: seq<Root>, new g: Graph, new t: set<ObjLink>, new o: ObjLink)
      requires o in t && old(Held(roots.list, o)) && g.mem == old(mem) && g.interior == interior && g.view.w == w
      requires o.Ok(w) && g.view.Bounded(o)
      ensures o in old(Seeds(stack, g, t))
    {
      hide View.Pointed, ReadySeed, TableSeed, ObjLink.Ok, View.Bounded;
      var r, k: nat :| r in old(roots.list) && old(Holds(r, k, o));
      Graph(g.view, g.mem, interior).ProperIsPointed(r.begin, r.end, k, o);
      assert RegionSeed(old(roots.list), interior, g, o);
    }

    // A collection spares every object that a path of such pointers, or of
    // pointers less than a page into objects where these count, leads to from
    // the stack or the roots: it is neither dropped nor pending.
    twostate lemma PathKept(stack: seq<Root>, new g: Graph, new seeds: set<ObjLink>, new fin: set<ObjLink>, new path: seq<ObjLink>)
      requires Completed(stack, g, seeds, fin) && objs.Valid()
      requires path != [] && (forall o :: o in path ==> o in old(objs.Live()))
      requires old(Held(stack, path[0])) || old(Held(roots.list, path[0]))
      requires forall i :: 0 < i < |path| ==> g.ProperEdge(path[i - 1], path[i])
      ensures path[|path| - 1] in objs.Live() && path[|path| - 1] !in objs.freeList
    {
      hide Held, Seeds, Graph.Reach, Finalizable, ObjLink.Ok, View.Bounded, ObjHtable.Live, ObjHtable.Valid, Graph.ProperEdge;
      var t := old(objs.Live());
      assert path[0] in t;
      if old(Held(stack, path[0])) {
        HeldSeed(stack, g, t, path[0]);
      } else {
        RootHeldSeed(stack, g, t, path[0]);
      }
      g.ProperPathsReach(t, seeds, path);
      objs.LiveNotPending(path[|path| - 1]);
    }

    // f's client data points at o.
    ghost predicate ClientAt(f: Finalizer, o: ObjLink)
      reads objs`log2Size
    {
      f.client != 0 && Hits(w, objs.log2Size, interior, f.client, o)
    }

    // The seeds there are without client data of registered finalizers.
    ghost function OtherSeeds(stack: seq<Root>, g: Graph, t: set<ObjLink>): set<ObjLink>
      reads this`ready, roots`list
    {
      set o | o in t && (ReadySeed(ready, g, o) || RegionSeed(stack, true, g, o) || RegionSeed(roots.list, interior, g, o))
    }

    // The object that a registered finalizer's client data points at outlives a
    // collection exactly if has_client_ptrs is up or the collection reaches it in
    // another way.
    twostate lemma ClientKept(stack: seq<Root>, new g: Graph, new seeds: set<ObjLink>, new fin: set<ObjLink>, new k: nat, new o: ObjLink)
      requires Completed(stack, g, seeds, fin) && k in old(fnlzs.model) && o in old(objs.Live()) && old(ClientAt(fnlzs.model[k], o))
      ensures
        var t, others := old(objs.Live()), old(OtherSeeds(stack, g, objs.Live()));
        o in objs.Live() <==>
          old(hasClients) || o in Survivors(g, t, others, old(Finalizable(fnlzs.model, objs.Live() - g.Reach(objs.Live(), others))))
    {
      hide Graph.Reach, Finalizable, ObjLink.Ok, View.Bounded, ObjHtable.Live, ReadySeed, RegionSeed, Hits;
      var t, others := old(objs.Live()), old(OtherSeeds(stack, g, objs.Live()));
      g.ReachClosed(t, seeds);
      if old(hasClients) {
        assert TableSeed(old(fnlzs.model), g, o);
      } else {
        assert seeds == others;
      }
    }

    // What allocating may do on the way: of the objects that are not pending,
    // those the stack holds stay; weak links and finalizers are not added, and
    // every finalizer stays in the table or becomes ready; the accounts stay exact
    // while the objects' bytes are below the tag; the heap does not shrink.
    twostate predicate Tidied(stack: seq<Root>)
      reads this, objs, dlinks`model, fnlzs`model
    {
      && objs.Live() <= old(objs.Live()) && (forall o :: o in old(objs.Live()) && old(Held(stack, o)) ==> o in objs.Live())
      && (forall o :: old(Held(stack, o)) ==> Held(stack, o))
      && (forall k :: k in dlinks.model ==> k in old(dlinks.model) && dlinks.model[k] == old(dlinks.model)[k])
      && (forall k :: k in fnlzs.model ==> k in old(fnlzs.model) && fnlzs.model[k] == old(fnlzs.model)[k])
      && (old(Accounts()) && old(ObjectBytes()) < w.Tag() ==> Accounts()) && ObjectBytes() <= old(ObjectBytes())
      && Due() == old(Due())
      && maxHeap == old(maxHeap) && spareFinalizer == old(spareFinalizer) && |objs.unlinkedList| >= |old(objs.unlinkedList)|
      && FlagKept() && totalHeap >= old(totalHeap)
    }

    // The accounts stay exact as long as the heap, which never shrinks, is smaller
    // than the tag; the objects' bytes grow by no more than was asked for.
    twostate predicate Counted(asked: nat)
      reads this`totalHeap, this`markedBytes, this`bytesAllocd
      reads objs`hroots, objs`followList, objs`markedList, objs`freeList, objs`pendingFreeSize
    {
      && totalHeap >= old(totalHeap) && (old(Accounts()) && totalHeap < w.Tag() ==> Accounts())
      && ObjectBytes() <= old(ObjectBytes()) + asked
    }

    // Objects are part of the heap.
    lemma BytesWithinHeap(extra: nat)
      requires Sane(extra)
      ensures ObjectBytes() + extra <= totalHeap
    {
      hide Parts, Attached, ObjHtable.LiveBytes, Bytes, TableBytes;
    }

    // Words of the stack lose nothing but dead weak links.
    twostate lemma StillHeld(stack: seq<Root>)
      requires forall k :: k in dlinks.model ==> k in old(dlinks.model)
      requires forall a: nat :: a >= w.Modulus() || Hide(w, a) !in old(dlinks.model) ==> mem(a) == old(mem)(a)
      ensures forall o :: old(Held(stack, o)) ==> Held(stack, o)
    {
      forall o | old(Held(stack, o)) ensures Held(stack, o) {
        var r, k: nat :| r in stack && old(Holds(r, k, o));
        assert Holds(r, k, o);
      }
    }

    // A collection, seen from an allocation.
    method CollectFor(stack: seq<Root>, mayStop: bool)
      requires Sane(0)
      modifies this, objs, dlinks, fnlzs
      ensures Sane(0) && Tidied(stack)
    {
      hide Sane, Held, Seeds, Accounts, ObjectBytes, Readied, ObjHtable.Live, ObjHtable.Tracked, Graph.Reach, Finalizable, ObjLink.Ok, View.Bounded;
      var completed;
      ghost var g, seeds, fin, settled;
      completed, g, seeds, fin, settled := Collect(stack, mayStop);
      if completed {
        g.ReachClosed(old(objs.Live()), seeds);
        FinalizableWithin(old(fnlzs.model), old(objs.Live()) - g.Reach(old(objs.Live()), seeds));
        SurvivorsWithin(g, old(objs.Live()), seeds, fin);
        forall o | o in old(objs.Live()) && old(Held(stack, o)) ensures o in objs.Live() {
          HeldSeed(stack, g, old(objs.Live()), o);
        }
        ReadiedSubset(old(fnlzs.model), old(ready), old(objs.Live()) - g.Reach(old(objs.Live()), seeds));
      }
      StillHeld(stack);
    }

    lemma ReadiedSubset(m0: map<nat, Finalizer>, ready0: seq<Finalizer>, t1: set<ObjLink>)
      requires Readied(m0, ready0, t1)
      ensures Due() == DueOf(m0, ready0) && forall k :: k in fnlzs.model ==> k in m0 && m0[k] == fnlzs.model[k]
    {
    }

    // GC_objlink_free_pending, seen from an allocation.
    method FreeFor(min: nat, stack: seq<Root>) returns (count: nat)
      requires Sane(0)
      modifies objs`freeList, objs`unlinkedList, objs`pendingFreeSize, dlinks`hroots, dlinks`count, dlinks`model, this`freeBytes
      ensures Sane(0) && Tidied(stack) && objs.Live() == old(objs.Live())
    {
      hide Sane, Held, ObjHtable.Live, ObjHtable.LiveBytes, ObjHtable.PendingExact, Bytes;
      SameWidth(0);
      count := FreePending(min, 0);
      StillHeld(stack);
    }

    // The allocation in GC_core_malloc_with_gc once free memory has run out:
    // free what is pending, and collect.
    method MakeRoom(size: nat, stack: seq<Root>) returns (ptr: nat, collected: bool)
      requires Sane(0)
      modifies this, objs, dlinks, fnlzs
      ensures (if ptr != 0 then Usable(ptr, size) && size < w.Tag() && Sane(size) else Sane(0)) && Tidied(stack)
    {
      hide Sane, Held, Usable, Accounts, ObjectBytes, Due, ObjHtable.Live;
      ptr, collected := 0, false;
      var count := FreeFor(w.Modulus() - 1, stack);
      if count != 0 {
        ptr := CoreMalloc(size, dontExpand, 0);
      }
      if ptr == 0 && !dontGc {
        CollectFor(stack, false);
        collected := true;
      }
    }

    // The last attempts: what is pending, spare weak link nodes, and a larger
    // heap.
    method TakeRoom(size: nat, stack: seq<Root>) returns (ptr: nat, tight: bool)
      requires Sane(0)
      modifies objs`freeList, objs`unlinkedList, objs`pendingFreeSize, dlinks`hroots, dlinks`count, dlinks`model
      modifies this`freeBytes, this`totalHeap, this`spareDlinks
      ensures (if ptr != 0 then Usable(ptr, size) && size < w.Tag() && Sane(size) else Sane(0)) && Tidied(stack)
    {
      hide Sane, Held, Usable, Accounts, ObjectBytes, Due, ObjHtable.Live;
      ptr, tight := 0, false;
      var count := FreeFor(size, stack);
      if count != 0 {
        ptr := CoreMalloc(size, dontExpand, 0);
      }
      if ptr == 0 {
        ptr, tight := ExpandForRoom(size, count, stack);
      }
    }

    method ExpandForRoom(size: nat, count: nat, stack: seq<Root>) returns (ptr: nat, tight: bool)
      requires Sane(0)
      modifies this`freeBytes, this`totalHeap, this`spareDlinks
      ensures (if ptr != 0 then Usable(ptr, size) && size < w.Tag() && Sane(size) else Sane(0)) && Tidied(stack)
    {
      hide Sane, Held, Usable, Accounts, ObjectBytes, Due, ObjHtable.Live;
      ptr, tight := 0, false;
      var spare := FreeSpareDlinks(w.Modulus() - 1, 0);
      if spare != 0 {
        ptr := CoreMalloc(size, false, 0);
        tight := ptr == 0;
      } else if count == 0 || dontExpand {
        ptr := CoreMalloc(size, false, 0);
      }
    }

    // GC_core_malloc_with_gc; mayCollect is *pres >= 0.
    method CoreMallocWithGc(size: nat, stack: seq<Root>, mayCollect: bool) returns (ptr: nat)
      requires Sane(0)
      modifies this, objs, dlinks, fnlzs
      ensures (if ptr != 0 then Usable(ptr, size) && size < w.Tag() && Sane(size) else Sane(0)) && Tidied(stack)
    {
      hide Sane, Held, Usable, Accounts, ObjectBytes, Due, ObjHtable.Live;
      ptr := CoreMalloc(size, dontExpand, 0);
      var res;
      if ptr == 0 && mayCollect {
        ptr, res := MakeRoom(size, stack);
      }
      if ptr == 0 {
        ptr, res := TakeRoom(size, stack);
      }
    }

    lemma FreeBelow(extra: nat)
      requires Sane(extra)
      ensures freeBytes < w.Modulus() - 1
    {
      hide Parts, Attached, ObjHtable.LiveBytes, Bytes, Pow2;
    }

    // GC_general_malloc's growth of the table when nothing may be collected.
    method GrowWithoutCollect(stack: seq<Root>)
      requires Sane(0)
      modifies this, objs, dlinks
      ensures Sane(0) && Tidied(stack) && objs.Live() == old(objs.Live())
    {
      hide Sane, Due, Held, TableBytes, Bytes, ObjHtable.Live, ObjHtable.LiveBytes, ObjHtable.PendingExact;
      SameWidth(0);
      var log2 := objs.log2Size;
      var ok := AllocHroots(log2 + 1, 0);
      if ok {
        var _ := FreePending(w.Modulus() - 1, TableBytes(w, log2 + 1));
        FreeBelow(TableBytes(w, log2 + 1));
        GrowFull(log2);
      }
      StillHeld(stack);
    }

    method GrowFull(log2: nat)
      requires Sane(TableBytes(w, log2 + 1)) && objs.log2Size == log2 && objs.freeList == []
      modifies objs, this`freeBytes
      ensures Sane(0) && objs.Live() == old(objs.Live()) && objs.LiveBytes() == old(objs.LiveBytes())
      ensures objs.freeList == [] && objs.pendingFreeSize == old(objs.pendingFreeSize) && objs.unlinkedList == old(objs.unlinkedList)
    {
      hide TableBytes, Bytes, ObjHtable.Valid, ObjHtable.Table, ObjHtable.Live, ObjHtable.LiveBytes, ObjHtable.Tracked, ChainTable<ObjLink>.Valid, DataRoots.Valid;
      objs.GrowKeepingAll();
      freeBytes := freeBytes + TableBytes(w, log2);
    }

    // What GC_general_malloc does before it allocates: grow the crowded table,
    // collect, or expand the heap.  When to collect or expand otherwise is a
    // matter of heuristics, left open here, and so is the weight a running
    // finalizer has in the test for crowding.
    method PrepareHeap(stack: seq<Root>, mayStop: bool)
      requires Sane(0)
      modifies this, objs, dlinks, fnlzs
      ensures Sane(0) && Tidied(stack)
    {
      hide Sane, Held, Accounts, ObjectBytes, ObjHtable.Live, Pow2;
      IndexSizes(0);
      var weight: int := *;
      if 3 * Pow2(objs.log2Size - 2 + if weight > 0 then weight else 0) <= objs.count && bytesAllocd != 0 {
        if dontGc || roots.list == [] {
          var never: bool := *;
          if never || roots.list == [] {
            GrowWithoutCollect(stack);
          }
        } else {
          CollectFor(stack, mayStop);
        }
      } else {
        var collect: bool := *;
        if collect && !recycling && !dontGc {
          CollectFor(stack, mayStop);
        }
        ExpandByGuess(stack);
      }
    }

    method ExpandByGuess(stack: seq<Root>)
      requires Sane(0)
      modifies this`totalHeap, this`freeBytes, this`expandedHeap
      ensures Sane(0) && Tidied(stack)
    {
      hide Sane, Held, ObjHtable.Live;
      var size: nat := *;
      if bytesAllocd != 0 && 0 < size < w.Modulus() && !dontExpand && expandedHeap <= totalHeap {
        var _ := HeapExpand(size);
      }
    }

    // GC_alloc_objlinks: a block of blank objlinks.
    method AllocObjlinks(stack: seq<Root>, mayCollect: bool) returns (ok: bool)
      requires Sane(0)
      modifies this, objs, dlinks, fnlzs
      ensures Sane(0) && Tidied(stack) && (ok ==> objs.unlinkedList != [])
    {
      hide Sane, Held, Accounts, ObjectBytes, ObjHtable.Live, Pow2, Usable;
      IndexSizes(0);
      var count := Pow2(objs.log2Size - 2);
      var size := ThreeWords(w, count) + w.Bytes();
      var ptr := CoreMallocWithGc(size, stack, mayCollect);
      ok := ptr != 0;
      if ok {
        AddBlock(ptr, count, stack);
      }
    }

    method AddBlock(ptr: nat, count: nat, stack: seq<Root>)
      requires Sane(ThreeWords(w, count) + w.Bytes()) && Usable(ptr, ThreeWords(w, count) + w.Bytes()) && count > 0
      modifies objs`unlinkedList, this`blockBytes
      ensures Sane(0) && Tidied(stack) && |objs.unlinkedList| == count + old(|objs.unlinkedList|)
      ensures forall i :: 0 <= i < count ==> objs.unlinkedList[i] == ptr + w.Bytes() + ThreeWords(w, count - 1 - i)
    {
      hide Sane, Due, Held, Accounts, ObjectBytes, ThreeWords, ObjHtable.Live, ObjHtable.Valid, Blank, ObjHtable.Avoids, ObjHtable.Tracked, ChainTable<ObjLink>.Valid, DataRoots.Valid;
      var size := ThreeWords(w, count) + w.Bytes();
      var fresh_: seq<nat> := seq(count, i requires 0 <= i < count => ptr + w.Bytes() + ThreeWords(w, count - 1 - i));
      Pieces(size);
      BlanksFit(ptr, count, fresh_);
      objs.AddBlanks(fresh_);
      blockBytes := blockBytes + size;
      SaneBlock(size);
    }

    lemma BlanksFit(ptr: nat, count: nat, fresh_: seq<nat>)
      requires objs.Avoids(ptr, ThreeWords(w, count) + w.Bytes()) && objs.w == w && |fresh_| == count
      requires forall i :: 0 <= i < count ==> fresh_[i] == ptr + w.Bytes() + ThreeWords(w, count - 1 - i)
      ensures Blank(objs.Tracked(), fresh_) && forall a :: a in fresh_ ==> a !in objs.unlinkedList
    {
      hide ObjHtable.Tracked, Flatten;
      objs.AvoidsTracked(ptr, ThreeWords(w, count) + w.Bytes());
      assert forall a :: a in fresh_ ==> ptr < a < ptr + ThreeWords(w, count) + w.Bytes();
    }

    twostate lemma SaneBlock(size: nat)
      requires old(Sane(size)) && objs.Valid() && blockBytes == old(blockBytes) + size
      requires unchanged(objs`hroots, objs`freeList, objs`markedList, objs`followList, objs`log2Size, dlinks, fnlzs, roots)
      requires unchanged(this`totalHeap, this`freeBytes, this`maxHeap, this`spareFinalizer, this`ready)
      ensures Sane(0)
    {
      hide ObjHtable.Valid, ObjHtable.LiveBytes, ObjHtable.Live, ChainTable<ObjLink>.Valid, DataRoots.Valid, Bytes, TableBytes;
    }

    // The new object's objlink goes into the table, and its bytes are counted.
    method InsertObject(ptr: nat, size: nat, atomic: bool) returns (ghost o: ObjLink)
      requires Sane(size) && Usable(ptr, size) && 0 < size < w.Tag() && objs.unlinkedList != []
      modifies objs`hroots, objs`count, objs`minObjAddr, objs`maxObjAddr, objs`unlinkedList, this`bytesAllocd
      ensures Sane(0) && objs.Live() == old(objs.Live()) + {o} && objs.LiveBytes() == old(objs.LiveBytes()) + size
      ensures o.at == old(objs.unlinkedList[0]) && objs.unlinkedList == old(objs.unlinkedList[1..]) && objs.Table() == old(objs.Table()) + {o}
      ensures objs.Tracked() == old(objs.Tracked()) + multiset{o}
      ensures objs.minObjAddr == if old(objs.minObjAddr) >= ptr then ptr else old(objs.minObjAddr)
      ensures objs.maxObjAddr == if ptr + PAGE > old(objs.maxObjAddr) then ptr + PAGE else old(objs.maxObjAddr)
      ensures o.obj == ptr && o.Size(w) == size && o.Atomic(w) == atomic && forall p :: p in old(objs.Live()) ==> Apart(w, o, p)
      ensures bytesAllocd == old(bytesAllocd) + size
    {
      hide Sane, Usable, ObjHtable.Valid, ObjHtable.Live, ObjHtable.LiveBytes, ObjHtable.Tracked, Bytes, ObjLink.Ok, Apart, Tagged, ChainTable<ObjLink>.Valid, DataRoots.Valid;
      Pieces(size);
      ObjectFits(ptr, size, atomic);
      bytesAllocd := bytesAllocd + size;
      o := objs.Add(ptr, size, atomic);
      objs.LiveAdded(o);
      SaneAdded(size, o);
    }

    // GC_malloc's object goes into the table, cleared unless it is atomic.
    method AddObject(ptr: nat, size: nat, atomic: bool) returns (ghost o: ObjLink)
      requires Sane(size) && Usable(ptr, size) && 0 < size < w.Tag() && objs.unlinkedList != []
      modifies objs`hroots, objs`count, objs`minObjAddr, objs`maxObjAddr, objs`unlinkedList, this`bytesAllocd, this`mem
      ensures Sane(0) && objs.Live() == old(objs.Live()) + {o}
      ensures o.obj == ptr && o.Size(w) == size && o.Atomic(w) == atomic && forall p :: p in old(objs.Live()) ==> Apart(w, o, p)
      ensures old(Accounts()) ==> Accounts()
      ensures ObjectBytes() == old(ObjectBytes()) + size
      ensures forall a: nat :: mem(a) == if !atomic && ptr <= a < ptr + size then 0 else old(mem)(a)
    {
      hide Sane, Usable, ObjHtable.Live, ObjHtable.LiveBytes, ObjHtable.PendingExact, Bytes, Apart;
      if !atomic {
        Zero(ptr, size);
      }
      o := InsertObject(ptr, size, atomic);
    }

    // GC_MEM_BZERO
    method Zero(ptr: nat, size: nat)
      modifies this`mem
      ensures forall a: nat :: mem(a) == if ptr <= a < ptr + size then 0 else old(mem)(a)
    {
      var before := mem;
      mem := (a: nat) => if ptr <= a < ptr + size then 0 else before(a);
    }

    lemma ObjectFits(ptr: nat, size: nat, atomic: bool)
      requires Sane(size) && Usable(ptr, size) && 0 < size < w.Tag() && objs.unlinkedList != []
      ensures var o := ObjLink(objs.unlinkedList[0], ptr, Tagged(w, size, atomic));
        o.Ok(w) && (forall p :: p in objs.Tracked() ==> Apart(w, o, p)) && forall p :: p in objs.Live() ==> Apart(w, o, p)
    {
      hide ObjHtable.Valid, ObjHtable.Live, ObjHtable.Tracked, ObjHtable.Avoids, Attached, Ledger, ObjLink.Ok, Tagged;
      objs.BlankPositive();
      TaggedSize(w, objs.unlinkedList[0], ptr, size, atomic);
      objs.AvoidsTracked(ptr, size);
      objs.LiveAreTracked();
    }

    twostate lemma SaneAdded(size: nat, new o: ObjLink)
      requires old(Sane(size)) && objs.Valid() && objs.LiveBytes() == old(objs.LiveBytes()) + size
      requires objs.Live() == old(objs.Live()) + {o}
      requires unchanged(objs`freeList, objs`log2Size, dlinks, fnlzs, roots)
      requires unchanged(this`totalHeap, this`freeBytes, this`maxHeap, this`blockBytes, this`spareFinalizer, this`ready)
      ensures Sane(0)
    {
      hide ObjHtable.Valid, ObjHtable.LiveBytes, ObjHtable.Live, ChainTable<ObjLink>.Valid, DataRoots.Valid, Bytes, TableBytes;
    }

    // GC_objlink_some_refill with GC_LAZYREFILL_COUNT.
    method RefillSome(stack: seq<Root>) returns (moved: nat)
      requires Sane(0)
      modifies objs`hroots, objs`count, objs`minObjAddr, objs`maxObjAddr, objs`markedList, objs`followList
      ensures Sane(0) && Tidied(stack) && objs.Live() == old(objs.Live())
    {
      hide Sane, Held, ObjHtable.Live, ObjHtable.LiveBytes, ObjHtable.Tracked, ObjHtable.Valid, ObjHtable.Table, ObjHtable.PendingExact, Bytes, ChainTable<ObjLink>.Valid, DataRoots.Valid;
      Pieces(0);
      moved := objs.SomeRefill(10);
      SaneMarked(0);
    }

    // Between one and three pending objects are freed.
    method FreeALittle(moved: nat, stack: seq<Root>) returns (res: nat)
      requires Sane(0)
      modifies objs`freeList, objs`unlinkedList, objs`pendingFreeSize, dlinks`hroots, dlinks`count, dlinks`model, this`freeBytes
      ensures Sane(0) && Tidied(stack) && objs.Live() == old(objs.Live())
    {
      hide Sane, Held, Accounts, ObjectBytes, ObjHtable.Live;
      res := moved;
      if objs.freeList != [] {
        var count := FreeFor(0, stack);
        res := res + 2 * count;
        if res > 1 {
          var more := res > 2;
          if !more {
            count := FreeFor(freeBytes + PAGE, stack);
            more := count == 1;
          }
          if more {
            count := FreeFor(0, stack);
          }
        }
      }
    }

    // The lazy part of an allocation: some marked objlinks return to the table,
    // some pending objects and spare nodes are freed.
    method Recycle(size: nat, stack: seq<Root>)
      requires Sane(0)
      modifies objs, dlinks, this`freeBytes, this`spareDlinks, this`recycling
      ensures Sane(0) && Tidied(stack) && objs.Live() == old(objs.Live())
    {
      hide Sane, Held, Accounts, ObjectBytes, Due, ObjHtable.Live;
      var res := RefillSome(stack);
      res := FreeALittle(res, stack);
      if res == 0 {
        if spareDlinks == 0 {
          recycling := false;
        } else {
          var _ := FreeSpareDlinks(size / (2 * w.Bytes()) + 1, 0);
        }
      }
    }

    // Up to the point where GC_general_malloc has memory and an objlink.
    method ObtainMemory(size: nat, stack: seq<Root>, mayStop: bool, mayCollect: bool) returns (ptr: nat)
      requires Sane(0)
      modifies this, objs, dlinks, fnlzs
      ensures (if ptr != 0 then Usable(ptr, size) && size < w.Tag() && Sane(size) && objs.unlinkedList != [] else Sane(0)) && Tidied(stack)
    {
      hide Sane, Held, Usable, Accounts, ObjectBytes, Due, ObjHtable.Live;
      ptr := 0;
      PrepareHeap(stack, mayStop);
      var ok := objs.unlinkedList != [];
      if !ok {
        ok := AllocObjlinks(stack, mayCollect);
      }
      if ok {
        ptr := CoreMallocWithGc(size, stack, mayCollect);
      }
    }

    // One round of GC_general_malloc under the lock: a new object, apart from
    // all others, and nothing the stack holds is lost.
    method Malloc(size0: nat, atomic: bool, stack: seq<Root>, mayStop: bool, mayCollect: bool) returns (ptr: nat, ghost o: ObjLink)
      requires Sane(0)
      modifies this, objs, dlinks, fnlzs
      ensures Sane(0) && maxHeap == old(maxHeap)
      ensures ptr == 0 ==> objs.Live() <= old(objs.Live())
      ensures ptr != 0 ==>
        && o in objs.Live() && o.obj == ptr && o.Atomic(w) == atomic
        && o.Size(w) == (if size0 < PAGE && interior then size0 + 1 else size0)
        && objs.Live() - {o} <= old(objs.Live()) && (forall p :: p in objs.Live() && p != o ==> Apart(w, o, p))
        && (!atomic ==> forall a: nat :: ptr <= a < ptr + o.Size(w) ==> mem(a) == 0)
      ensures forall p :: p in old(objs.Live()) && old(Held(stack, p)) ==> p in objs.Live()
      ensures Counted(size0 + 1) && Due() == old(Due())
    {
      hide Sane, Held, Usable, Accounts, ObjectBytes, Due, ObjHtable.Live, ObjLink.Ok, Apart;
      BytesWithinHeap(0);
      ptr, o := 0, ObjLink(0, 0, 0);
      if size0 != 0 {
        var size := if size0 < PAGE && interior then size0 + 1 else size0;
        ptr := ObtainMemory(size, stack, mayStop, mayCollect);
        if ptr != 0 {
          o := AddObject(ptr, size, atomic);
          BytesWithinHeap(0);
          var lazy: bool := *;
          if lazy && recycling {
            Recycle(size, stack);
          }
        }
      }
    }

    // GC_alloc_hroots, seen from an allocation.
    method AllocFor(log2: nat, stack: seq<Root>) returns (ok: bool)
      requires Sane(0)
      modifies objs`freeList, objs`unlinkedList, objs`pendingFreeSize, dlinks`hroots, dlinks`count, dlinks`model
      modifies this`freeBytes, this`totalHeap, this`spareDlinks
      ensures Sane(if ok then TableBytes(w, log2) else 0) && Tidied(stack) && objs.Live() == old(objs.Live())
      ensures ok ==> TableBytes(w, log2) < w.Tag()
    {
      hide Sane, Held, TableBytes, ObjHtable.Live, ObjHtable.LiveBytes, ObjHtable.PendingExact, Bytes;
      SameWidth(0);
      ok := AllocHroots(log2, 0);
      StillHeld(stack);
    }

    // GC_HASH_RESIZECOND, and the growth of the table of weak links.
    method GrowDlinks(stack: seq<Root>)
      requires Sane(0)
      modifies objs`freeList, objs`unlinkedList, objs`pendingFreeSize, dlinks, this`freeBytes, this`totalHeap, this`spareDlinks
      ensures Sane(0) && Tidied(stack) && objs.Live() == old(objs.Live())
    {
      hide Sane, Held, TableBytes, Pow2, Accounts, ObjectBytes, ObjHtable.Live, ChainTable<ObjLink>.Valid;
      IndexSizes(0);
      if 3 * Pow2(dlinks.log2Size - 2) <= dlinks.count {
        var ok := AllocFor(dlinks.log2Size + 1, stack);
        if ok {
          ResizeDlinks(stack);
        }
      }
    }

    method ResizeDlinks(stack: seq<Root>)
      requires Sane(TableBytes(w, dlinks.log2Size + 1)) && TableBytes(w, dlinks.log2Size + 1) < w.Tag()
      modifies dlinks`hroots, dlinks`seed, dlinks`log2Size, this`freeBytes
      ensures Sane(0) && Tidied(stack) && dlinks.model == old(dlinks.model) && objs.Live() == old(objs.Live())
    {
      hide Sane, Due, Accounts, ObjectBytes, ObjHtable.Live, ObjHtable.Valid, ChainTable<ObjLink>.Valid, TableBytes, Held, DataRoots.Valid;
      var old_ := dlinks.log2Size;
      Pieces(TableBytes(w, old_ + 1));
      SmallTable(w, old_ + 1);
      var seed: nat := RandomSeed();
      dlinks.Resize(old_ + 1, seed);
      freeBytes := freeBytes + TableBytes(w, old_);
      SaneResized(old_);
    }

    twostate lemma SaneResized(log2: nat)
      requires old(Sane(TableBytes(w, log2 + 1))) && old(dlinks.log2Size) == log2 && dlinks.log2Size == log2 + 1 && dlinks.Valid()
      requires dlinks.model == old(dlinks.model) && dlinks.count == old(dlinks.count) && freeBytes == old(freeBytes) + TableBytes(w, log2)
      requires unchanged(objs, fnlzs, roots, this`totalHeap, this`maxHeap, this`blockBytes, this`spareFinalizer, this`ready)
      ensures Sane(0)
    {
      hide ObjHtable.Valid, ObjHtable.Live, ObjHtable.LiveBytes, Bytes, DataRoots.Valid, ChainTable<ObjLink>.Valid, TableBytes;
    }

    // The object that contains addr, as GC_base and the registrations find it.
    method Find(addr: nat) returns (found: Option<ObjLink>)
      requires Sane(0) && 0 < addr < w.Modulus()
      modifies objs`hroots, objs`count, objs`minObjAddr, objs`maxObjAddr, objs`markedList, objs`followList
      ensures Sane(0) && objs.Live() == old(objs.Live()) && objs.LiveBytes() == old(objs.LiveBytes())
      ensures found.Some? ==> found.value in objs.Live() && found.value.Covers(w, addr)
      ensures found.None? ==> forall o :: o in objs.Live() && o.Covers(w, addr) ==> addr - o.obj >= PAGE && o in old(objs.Table())
      ensures Accounts() == old(Accounts()) && ObjectBytes() == old(ObjectBytes())
    {
      hide Sane, ObjHtable.Live, ObjHtable.LiveBytes, ObjHtable.Tracked, ObjHtable.Valid, ObjHtable.Table, ChainTable<ObjLink>.Valid, DataRoots.Valid;
      Pieces(0);
      found := objs.Lookup(addr);
      SaneMarked(0);
    }

    // GC_dlink_add, for a node that is the first spare one, a new one, or none;
    // stir goes into the seed of an empty table.
    method AddDlink(hidden: nat, o: ObjLink, node: NodeSource, stir: nat) returns (res: Registration)
      requires Sane(if node == FromMalloc then ThreeWords(w, 1) else 0) && o in objs.Live() && 0 < hidden < w.Modulus()
      requires node == FromSpare ==> spareDlinks > 0 && freeBytes >= ThreeWords(w, 1)
      modifies dlinks`hroots, dlinks`seed, dlinks`count, dlinks`model, this`spareDlinks, this`freeBytes
      ensures Sane(0)
      ensures res == Success || res == Duplicate || res == NoMemory
      ensures res == Duplicate <==> hidden in old(dlinks.model)
      ensures res == NoMemory <==> hidden !in old(dlinks.model) && node == NoNode
      ensures dlinks.model == if res == NoMemory then old(dlinks.model) else old(dlinks.model)[hidden := o]
    {
      hide Sane, ObjHtable.Live, ObjHtable.Valid, ChainTable<ObjLink>.Valid, DataRoots.Valid;
      Pieces(if node == FromMalloc then ThreeWords(w, 1) else 0);
      dlinks.Reseed(stir);
      var known := dlinks.Find(hidden);
      if known.None? && node == NoNode {
        SaneLinked(hidden, o, node);
        return NoMemory;
      }
      var duplicate := dlinks.Put(hidden, o);
      if duplicate {
        res := Duplicate;
        if node == FromMalloc {
          spareDlinks := spareDlinks + 1;
          freeBytes := freeBytes + ThreeWords(w, 1);
        }
      } else {
        res := Success;
        if node == FromSpare {
          spareDlinks := spareDlinks - 1;
          freeBytes := freeBytes - ThreeWords(w, 1);
        }
      }
      SaneLinked(hidden, o, node);
    }

    twostate lemma SaneLinked(hidden: nat, new o: ObjLink, new node: NodeSource)
      requires old(Sane(if node == FromMalloc then ThreeWords(w, 1) else 0)) && o in objs.Live() && 0 < hidden < w.Modulus()
      requires dlinks.Valid() && unchanged(objs, fnlzs, roots, dlinks`log2Size)
      requires unchanged(this`totalHeap, this`maxHeap, this`blockBytes, this`spareFinalizer, this`ready)
      requires dlinks.model == old(dlinks.model) || dlinks.model == old(dlinks.model)[hidden := o]
      requires freeBytes + ThreeWords(w, dlinks.count) ==
        old(freeBytes) + ThreeWords(w, old(dlinks.count)) + if node == FromMalloc then ThreeWords(w, 1) else 0
      ensures Sane(0)
    {
      hide ObjHtable.Valid, ObjHtable.Live, ObjHtable.LiveBytes, Bytes, DataRoots.Valid, ChainTable<ObjLink>.Valid, TableBytes;
    }

    // A node for a new weak link: the first spare one, or memory, for which the
    // table may grow and a collection may run first.
    method NodeForDlink(stack: seq<Root>) returns (node: NodeSource)
      requires Sane(0)
      modifies this, objs, dlinks, fnlzs
      ensures Sane(if node == FromMalloc then ThreeWords(w, 1) else 0) && Tidied(stack)
      ensures node == FromSpare ==> spareDlinks > 0 && freeBytes >= ThreeWords(w, 1)
      ensures node == FromSpare <==> old(spareDlinks > 0 && freeBytes >= ThreeWords(w, 1))
    {
      hide Sane, Held, Usable, Accounts, ObjectBytes, Due, ObjHtable.Live;
      if spareDlinks > 0 && freeBytes >= ThreeWords(w, 1) {
        node := FromSpare;
      } else {
        GrowDlinks(stack);
        var ptr := CoreMallocWithGc(ThreeWords(w, 1), stack, true);
        node := if ptr != 0 then FromMalloc else NoNode;
      }
    }

    // GC_general_register_disappearing_link: the word at link becomes a weak
    // pointer to the object at obj, which the caller's stack holds.
    method RegisterDlink(link: nat, obj: nat, stack: seq<Root>) returns (res: Registration)
      requires Sane(0) && link < w.Modulus() && obj < w.Modulus()
      requires forall o :: o in objs.Live() && o.obj == obj ==> Held(stack, o)
      modifies this, objs, dlinks, fnlzs
      ensures Sane(0) && maxHeap == old(maxHeap)
      ensures link == 0 || link % w.Bytes() != 0 ==> res == BadPointer
      ensures res == NoMemory ==> Hide(w, link) !in dlinks.model && old(spareDlinks == 0 || freeBytes < ThreeWords(w, 1))
      ensures res == Success || res == Duplicate ==>
        && Hide(w, link) in dlinks.model && dlinks.model[Hide(w, link)].obj == obj && dlinks.model[Hide(w, link)] in old(objs.Live())
      ensures forall k :: k in dlinks.model && (k != Hide(w, link) || res == NoMemory || res == Ignored || res == BadPointer) ==>
        k in old(dlinks.model) && dlinks.model[k] == old(dlinks.model)[k]
      ensures Counted(0) && Due() == old(Due())
    {
      hide Sane, Due, Held, Accounts, ObjectBytes, ObjHtable.Live, ObjHtable.LiveBytes;
      BytesWithinHeap(0);
      if link % w.Bytes() != 0 || link == 0 {
        return BadPointer;
      }
      if obj == 0 {
        return Ignored;
      }
      var found := Find(obj);
      if found.None? {
        return Ignored;
      }
      if found.value.obj != obj {
        return BadPointer;
      }
      AlignedHidden(w, link);
      var node := NodeForDlink(stack);
      var stir := RandomSeed();
      res := AddDlink(Hide(w, link), found.value, node, stir);
    }

    // GC_unregister_disappearing_link
    method UnregisterDlink(link: nat) returns (found: bool)
      requires Sane(0) && link < w.Modulus()
      modifies dlinks`hroots, dlinks`count, dlinks`model, this`freeBytes
      ensures Sane(0) && dlinks.model == old(dlinks.model) - {Hide(w, link)}
      ensures found == (Hide(w, link) in old(dlinks.model))
    {
      hide Sane, ObjHtable.Valid, ChainTable<ObjLink>.Valid, DataRoots.Valid, Placement.Bucket;
      found := false;
      Pieces(0);
      NoLinksNoCount();
      var hidden := Hide(w, link);
      LinkCount();
      dlinks.PositiveKeys();
      if dlinks.count != 0 && hidden != 0 {
        var n := dlinks.DeleteRange(hidden, hidden, hidden);
        LinkCount();
        found := n != 0;
        freeBytes := freeBytes + ThreeWords(w, n);
        SaneUnlinked(n);
      }
    }

    lemma LinkCount()
      requires dlinks.Valid()
      ensures dlinks.count == |dlinks.model|
    {
    }

    twostate lemma SaneUnlinked(n: nat)
      requires old(Sane(0)) && dlinks.Valid() && dlinks.count + n == old(dlinks.count) && unchanged(objs, fnlzs, roots, dlinks`log2Size)
      requires forall k :: k in dlinks.model ==> k in old(dlinks.model) && dlinks.model[k] == old(dlinks.model)[k]
      requires freeBytes == old(freeBytes) + ThreeWords(w, n)
      requires unchanged(this`totalHeap, this`maxHeap, this`blockBytes, this`spareFinalizer, this`ready)
      ensures Sane(0)
    {
      hide ObjHtable.Valid, ObjHtable.Live, ObjHtable.LiveBytes, ChainTable<ObjLink>.Valid, DataRoots.Valid, Bytes, TableBytes;
    }

    // GC_HASH_RESIZECOND, and the growth of the table of finalizers.
    method GrowFinalizers(stack: seq<Root>)
      requires Sane(0)
      modifies objs`freeList, objs`unlinkedList, objs`pendingFreeSize, dlinks`hroots, dlinks`count, dlinks`model
      modifies fnlzs`hroots, fnlzs`seed, fnlzs`log2Size, this`freeBytes, this`totalHeap, this`spareDlinks
      ensures Sane(0) && Tidied(stack) && objs.Live() == old(objs.Live())
    {
      hide Sane, Held, TableBytes, Pow2, Accounts, ObjectBytes, ObjHtable.Live, ChainTable<ObjLink>.Valid;
      IndexSizes(0);
      if 3 * Pow2(fnlzs.log2Size - 2) <= fnlzs.count {
        var ok := AllocFor(fnlzs.log2Size + 1, stack);
        if ok {
          ResizeFinalizers(stack);
        }
      }
    }

    method ResizeFinalizers(stack: seq<Root>)
      requires Sane(TableBytes(w, fnlzs.log2Size + 1)) && TableBytes(w, fnlzs.log2Size + 1) < w.Tag()
      modifies fnlzs`hroots, fnlzs`seed, fnlzs`log2Size, this`freeBytes
      ensures Sane(0) && Tidied(stack) && fnlzs.model == old(fnlzs.model) && objs.Live() == old(objs.Live())
    {
      hide Sane, Due, Accounts, ObjectBytes, ObjHtable.Live, TableBytes, Held;
      RehashFinalizers();
    }

    method RehashFinalizers()
      requires Sane(TableBytes(w, fnlzs.log2Size + 1)) && TableBytes(w, fnlzs.log2Size + 1) < w.Tag()
      modifies fnlzs`hroots, fnlzs`seed, fnlzs`log2Size, this`freeBytes
      ensures Sane(0) && fnlzs.model == old(fnlzs.model)
    {
      hide Sane, FinalizerOk, ObjHtable.Live, ObjHtable.Valid, ChainTable<ObjLink>.Valid, DataRoots.Valid, TableBytes;
      var old_ := fnlzs.log2Size;
      Pieces(TableBytes(w, old_ + 1));
      TableFinalizersOk(TableBytes(w, old_ + 1));
      SmallTable(w, old_ + 1);
      var seed: nat := RandomSeed();
      fnlzs.Resize(old_ + 1, seed);
      freeBytes := freeBytes + TableBytes(w, old_);
      SaneFinalizers(TableBytes(w, old_ + 1));
    }

    // The table of finalizers has changed; every finalizer in it belongs to a
    // live object, and the books are balanced.
    twostate lemma SaneFinalizers(extra: nat)
      requires old(Sane(extra)) && fnlzs.Valid() && fnlzs.log2Size >= 2
      requires unchanged(objs, dlinks, roots, this`totalHeap, this`maxHeap, this`blockBytes, this`ready)
      requires forall k :: k in fnlzs.model ==> FinalizerOk(fnlzs.model[k]) && fnlzs.model[k].link.at == k
      requires freeBytes + TableBytes(w, fnlzs.log2Size) + FourWords(w, fnlzs.count + if spareFinalizer then 1 else 0) ==
        old(freeBytes) + TableBytes(w, old(fnlzs.log2Size)) + FourWords(w, old(fnlzs.count + if spareFinalizer then 1 else 0)) + extra
      ensures Sane(0)
    {
      hide ObjHtable.Valid, ObjHtable.Live, ObjHtable.LiveBytes, FinalizerOk, Bytes, DataRoots.Valid, ChainTable<ObjLink>.Valid, TableBytes;
    }

    // has_client_ptrs is set when client data lies within the bounds of the
    // table as they are at registration.
    method NoteClient(client: nat)
      modifies this`hasClients
      ensures hasClients == (old(hasClients) || objs.minObjAddr <= client < objs.maxObjAddr)
    {
      if !hasClients && client >= objs.minObjAddr && client < objs.maxObjAddr {
        hasClients := true;
      }
    }

    // GC_fnlz_add_del without a function.
    method DropFinalizer(o: ObjLink)
      requires Sane(0)
      modifies fnlzs`hroots, fnlzs`count, fnlzs`model, this`spareFinalizer, this`freeBytes, this`hasClients
      ensures Sane(0) && fnlzs.model == old(fnlzs.model) - {o.at}
      ensures hasClients == (old(hasClients) && fnlzs.model != map[])
    {
      hide Sane, FinalizerOk, ObjHtable.Live, ObjHtable.Valid, ChainTable<ObjLink>.Valid, DataRoots.Valid, TableBytes;
      Pieces(0);
      TableFinalizersOk(0);
      var found := fnlzs.Delete(o.at);
      if found {
        KeepNode();
      }
      SaneFinalizers(0);
      ResetClients();
    }

    // An empty table has no client data.
    method ResetClients()
      requires fnlzs.Valid()
      modifies this`hasClients
      ensures hasClients == (old(hasClients) && fnlzs.model != map[])
    {
      FinalizerCount();
      if fnlzs.count == 0 {
        hasClients := false;
      }
    }

    // GC_fnlz_add_del with a function, once there is a node for it.
    method SetFinalizer(o: ObjLink, fn: nat, client: nat)
      requires Sane(0) && o in objs.Live() && client < w.Modulus() && (o.at in fnlzs.model || spareFinalizer)
      modifies fnlzs`hroots, fnlzs`count, fnlzs`model, this`spareFinalizer, this`hasClients
      ensures Sane(0) && fnlzs.model == old(fnlzs.model)[o.at := Finalizer(o, client, fn)]
      ensures spareFinalizer == (old(spareFinalizer) && o.at in old(fnlzs.model))
      ensures hasClients == (old(hasClients) || objs.minObjAddr <= client < objs.maxObjAddr)
    {
      hide Sane, FinalizerOk, ObjHtable.Live, ObjHtable.Valid, ChainTable<ObjLink>.Valid, DataRoots.Valid, TableBytes;
      Pieces(0);
      TableFinalizersOk(0);
      FinalizerFits(o, client, fn);
      LinkAddress(0, o);
      var known := fnlzs.Put(o.at, Finalizer(o, client, fn));
      spareFinalizer := spareFinalizer && known;
      NoteClient(client);
      SaneFinalizers(0);
    }

    lemma LinkAddress(extra: nat, o: ObjLink)
      requires Sane(extra) && o in objs.Live()
      ensures 0 < o.at
    {
      hide ObjHtable.Valid, ObjHtable.Live, Attached, Ledger;
      objs.LiveSound();
    }

    lemma FinalizerFits(o: ObjLink, client: nat, fn: nat)
      requires o in objs.Live() && client < w.Modulus()
      ensures FinalizerOk(Finalizer(o, client, fn))
    {
    }

    // GC_fnlz_add_del: what was registered for the object is replaced, dropped
    // or added; adding needs the spare node.
    method AddDelFinalizer(o: ObjLink, fn: nat, client: nat) returns (replaced: Option<Finalizer>)
      requires Sane(0) && o in objs.Live() && client < w.Modulus()
      modifies fnlzs`hroots, fnlzs`seed, fnlzs`count, fnlzs`model, this`spareFinalizer, this`freeBytes, this`hasClients
      ensures Sane(0)
      ensures replaced == if o.at in old(fnlzs.model) then Some(old(fnlzs.model)[o.at]) else None
      ensures fnlzs.model ==
        if fn == 0 then old(fnlzs.model) - {o.at}
        else if replaced.Some? || old(spareFinalizer) then old(fnlzs.model)[o.at := Finalizer(o, client, fn)]
        else old(fnlzs.model)
      ensures hasClients ==
        if fn == 0 then old(hasClients) && fnlzs.model != map[]
        else if replaced.Some? || old(spareFinalizer) then old(hasClients) || objs.minObjAddr <= client < objs.maxObjAddr
        else old(hasClients)
      ensures Due() + One(replaced) ==
        old(Due()) + if fn != 0 && (replaced.Some? || old(spareFinalizer)) then multiset{Finalizer(o, client, fn)} else multiset{}
    {
      hide Sane, FinalizerOk, DueOf, ObjHtable.Live, ObjHtable.Valid, ChainTable<ObjLink>.Valid, DataRoots.Valid;
      StirFinalizers();
      Pieces(0);
      TableFinalizersOk(0);
      replaced := fnlzs.Find(o.at);
      if replaced.Some? {
        DueRemoved(fnlzs.model, ready, o.at);
      } else {
        assert fnlzs.model - {o.at} == fnlzs.model;
      }
      DueSet(fnlzs.model, ready, Finalizer(o, client, fn));
      if fn == 0 {
        DropFinalizer(o);
      } else if replaced.Some? || spareFinalizer {
        SetFinalizer(o, fn, client);
      }
    }

    method StirFinalizers()
      requires Sane(0)
      modifies fnlzs`seed
      ensures Sane(0) && fnlzs.model == old(fnlzs.model)
    {
      hide Sane, FinalizerOk, ObjHtable.Live, ObjHtable.Valid, ChainTable<ObjLink>.Valid, DataRoots.Valid, TableBytes;
      Pieces(0);
      TableFinalizersOk(0);
      var stir := RandomSeed();
      fnlzs.Reseed(stir);
      SaneFinalizers(0);
    }

    // The node of a deleted finalizer is kept as the single spare one.
    method KeepNode()
      modifies this`spareFinalizer, this`freeBytes
      ensures spareFinalizer
      ensures freeBytes == old(freeBytes) + if old(spareFinalizer) then FourWords(w, 1) else 0
    {
      if spareFinalizer {
        freeBytes := freeBytes + FourWords(w, 1);
      } else {
        spareFinalizer := true;
      }
    }

    lemma TableFinalizersOk(extra: nat)
      requires Sane(extra)
      ensures forall k :: k in fnlzs.model ==> FinalizerOk(fnlzs.model[k]) && fnlzs.model[k].link.at == k
    {
    }

    // A spare node for a finalizer, for which the table may grow and a
    // collection may run.
    method NodeForFinalizer(stack: seq<Root>)
      requires Sane(0)
      modifies this, objs, dlinks, fnlzs
      ensures Sane(0) && maxHeap == old(maxHeap) && forall o :: o in old(objs.Live()) && old(Held(stack, o)) ==> o in objs.Live()
      ensures old(spareFinalizer) ==> spareFinalizer
      ensures Counted(0) && Due() == old(Due()) && FlagKept()
    {
      hide Sane, Held, Usable, Accounts, ObjectBytes, Due, ObjHtable.Live;
      BytesWithinHeap(0);
      GrowFinalizers(stack);
      if !spareFinalizer {
        var ptr := CoreMallocWithGc(FourWords(w, 1), stack, true);
        if ptr != 0 {
          TakeSpare();
        }
      }
    }

    method TakeSpare()
      requires Sane(FourWords(w, 1)) && !spareFinalizer
      modifies this`spareFinalizer
      ensures Sane(0) && spareFinalizer
    {
      hide Parts, Attached, ObjHtable.Live, ObjHtable.LiveBytes, Bytes, TableBytes;
      spareFinalizer := true;
    }

    // The flag after a finalizer has been registered: up if its client data lies
    // within the bounds of the table, where the look-up and the search for a
    // node have left them; else as it was, but for a reset when all other
    // finalizers have become ready on the way.
    twostate predicate ClientNoted(k: nat, new client: nat)
      reads this`hasClients, fnlzs`model, objs`minObjAddr, objs`maxObjAddr
    {
      if objs.minObjAddr <= client < objs.maxObjAddr then hasClients
      else (hasClients ==> old(hasClients)) && (old(hasClients) && !hasClients ==> fnlzs.model.Keys == {k})
    }

    // GC_register_finalizer_no_order, up to the call of a ready finalizer.
    method RegisterFinalizer(obj: nat, fn: nat, client: nat, stack: seq<Root>)
      returns (res: Registration, replaced: Option<Finalizer>, ghost added: Option<Finalizer>)
      requires Sane(0) && obj < w.Modulus() && client < w.Modulus()
      requires forall o :: o in objs.Live() && o.obj == obj ==> Held(stack, o)
      modifies this, objs, dlinks, fnlzs
      ensures Sane(0) && maxHeap == old(maxHeap)
      ensures added.Some? <==> res == Success && fn != 0
      ensures added.Some? ==>
        var f := added.value;
        && f.link in old(objs.Live()) && f.link.obj == obj && f == Finalizer(f.link, client, fn)
        && f.link.at in fnlzs.model && fnlzs.model[f.link.at] == f
      ensures Counted(0) && Due() + One(replaced) == old(Due()) + One(added)
      ensures res == Success && fn == 0 ==> exists o :: o in old(objs.Live()) && o.obj == obj && o.at !in fnlzs.model
      ensures added.Some? ==> ClientNoted(added.value.link.at, client)
      ensures added.None? ==> FlagKept()
    {
      hide Sane, Held, Accounts, ObjectBytes, DueOf, One, ObjHtable.Live, ObjHtable.LiveBytes;
      OneNone();
      res, replaced, added := Ignored, None, None;
      if obj != 0 {
        var found := Find(obj);
        if found.Some? {
          if found.value.obj != obj {
            return BadPointer, None, None;
          }
          res, replaced, added := RegisterFound(found.value, fn, client, stack);
        }
      }
    }

    // The rest of it, once the object is known.
    method RegisterFound(o: ObjLink, fn: nat, client: nat, stack: seq<Root>)
      returns (res: Registration, replaced: Option<Finalizer>, ghost added: Option<Finalizer>)
      requires Sane(0) && o in objs.Live() && Held(stack, o) && client < w.Modulus()
      modifies this, objs, dlinks, fnlzs
      ensures Sane(0) && maxHeap == old(maxHeap) && (res == Success || res == NoMemory)
      ensures added == if res == Success && fn != 0 then Some(Finalizer(o, client, fn)) else None
      ensures added.Some? ==> o.at in fnlzs.model && fnlzs.model[o.at] == Finalizer(o, client, fn)
      ensures fn == 0 ==> res == Success && o.at !in fnlzs.model
      ensures added.Some? ==> ClientNoted(o.at, client)
      ensures added.None? ==> FlagKept()
      ensures Counted(0) && Due() + One(replaced) == old(Due()) + One(added)
    {
      hide Sane, Held, Accounts, ObjectBytes, DueOf, ObjHtable.Live, ObjHtable.LiveBytes;
      if fn != 0 {
        NodeForFinalizer(stack);
      }
      var had := spareFinalizer;
      replaced := AddDelFinalizer(o, fn, client);
      res := if fn == 0 || replaced.Some? || had then Success else NoMemory;
      added := if res == Success && fn != 0 then Some(Finalizer(o, client, fn)) else None;
    }

    // GC_fnlz_del_ready: each ready finalizer is handed out once.
    method TakeReady() returns (next: Option<Finalizer>)
      requires Sane(0)
      modifies this`ready
      ensures Sane(0)
      ensures if old(ready) == [] then next == None && ready == [] else next == Some(old(ready[0])) && ready == old(ready[1..])
      ensures Due() + One(next) == old(Due())
    {
      hide Parts, Ledger, ObjHtable.Live, FinalizerOk;
      next := None;
      if ready != [] {
        next := Some(ready[0]);
        assert ready == [ready[0]] + ready[1..];
        ready := ready[1..];
      }
    }

    // The books after a change of the list of roots.
    twostate lemma SaneRoots(extra: nat)
      requires old(Sane(extra)) && roots.Valid()
      requires unchanged(objs, dlinks, fnlzs, this`totalHeap, this`maxHeap, this`blockBytes, this`spareFinalizer, this`ready)
      requires freeBytes + ThreeWords(w, |roots.list|) == old(freeBytes) + ThreeWords(w, |old(roots.list)|) + extra
      ensures Sane(0)
    {
      hide ObjHtable.Valid, ObjHtable.Live, ObjHtable.LiveBytes, Bytes, DataRoots.Valid, ChainTable<ObjLink>.Valid, TableBytes;
    }

    // GC_add_roots; a node for a new root may need a collection first.
    method AddRoots(begin: nat, end: nat, stack: seq<Root>) returns (ok: bool)
      requires Sane(0) && begin < w.Modulus() && end < w.Modulus()
      modifies this, objs, dlinks, fnlzs, roots
      ensures Sane(0) && maxHeap == old(maxHeap)
      ensures forall a :: roots.Covers(a) <==> old(roots.Covers(a)) || (ok && begin != 0 && AlignUp(w, begin) <= a < AlignDown(w, end))
      ensures Counted(0) && Due() == old(Due())
    {
      hide Sane, Held, Accounts, ObjectBytes, Usable, ObjHtable.Live, ObjHtable.Valid, ChainTable<ObjLink>.Valid, DataRoots.Valid, AlignUp, AlignDown, DataRoots.Detached, DataRoots.Covers;
      BytesWithinHeap(0);
      var need := begin != 0 && AlignUp(w, begin) < AlignDown(w, end) && roots.Detached(AlignUp(w, begin), AlignDown(w, end));
      var ptr := 1;
      if need {
        ptr := CoreMallocWithGc(ThreeWords(w, 1), stack, true);
      }
      ok := LinkRoot(begin, end, need, ptr != 0);
    }

    method LinkRoot(begin: nat, end: nat, need: bool, room: bool) returns (ok: bool)
      requires Sane(if need && room then ThreeWords(w, 1) else 0) && begin < w.Modulus() && end < w.Modulus() && (!need ==> room)
      requires need == (begin != 0 && AlignUp(w, begin) < AlignDown(w, end) && roots.Detached(AlignUp(w, begin), AlignDown(w, end)))
      modifies roots, this`freeBytes
      ensures Sane(0)
      ensures forall a :: roots.Covers(a) <==> old(roots.Covers(a)) || (ok && begin != 0 && AlignUp(w, begin) <= a < AlignDown(w, end))
      ensures ok == (room || !need) && (need && room ==> roots.list != [])
    {
      hide Sane, ObjHtable.Valid, ChainTable<ObjLink>.Valid, DataRoots.Valid, AlignUp, AlignDown, DataRoots.Detached, DataRoots.Covers;
      Pieces(if need && room then ThreeWords(w, 1) else 0);
      var freed;
      ok, freed := roots.Add(begin, end, room);
      freeBytes := freeBytes + ThreeWords(w, freed);
      if need && room {
        SomeRoot(AlignUp(w, begin));
      }
      SaneRoots(if need && room then ThreeWords(w, 1) else 0);
    }

    lemma SomeRoot(a: int)
      requires roots.Covers(a)
      ensures roots.list != []
    {
    }

    // GC_remove_roots
    method RemoveRoots(low: nat, high: nat)
      requires Sane(0) && low < w.Modulus() && high < w.Modulus()
      modifies roots, this`freeBytes
      ensures Sane(0)
      ensures var b, e := AlignUp(w, low), AlignDown(w, high);
        forall r :: r in roots.list <==> r in old(roots.list) && !(low != 0 && b < e && r.Inside(b, e))
    {
      hide Sane, ObjHtable.Valid, ChainTable<ObjLink>.Valid, DataRoots.Valid, AlignUp, AlignDown, Root.Inside;
      Pieces(0);
      var freed := roots.RemoveRoots(low, high);
      freeBytes := freeBytes + ThreeWords(w, freed);
      SaneRoots(0);
    }

    // GC_exclude_static_roots; the split of a root may need a collection first.
    method ExcludeRoots(low: nat, high: nat, stack: seq<Root>) returns (ok: bool)
      requires Sane(0) && low < w.Modulus() && high < w.Modulus()
      modifies this, objs, dlinks, fnlzs, roots
      ensures Sane(0) && maxHeap == old(maxHeap)
      ensures ok ==> forall a :: roots.Covers(a) <==> old(roots.Covers(a)) && !(low != 0 && AlignUp(w, low) <= a < AlignDown(w, high))
      ensures !ok ==> forall a :: roots.Covers(a) <==> old(roots.Covers(a))
      ensures Counted(0) && Due() == old(Due())
    {
      hide Sane, Held, Accounts, ObjectBytes, Usable, ObjHtable.Live, AlignUp, AlignDown, DataRoots.Straddled, DataRoots.Covers;
      BytesWithinHeap(0);
      ok := true;
      var b, e := AlignUp(w, low), AlignDown(w, high);
      if low != 0 && b < e {
        DeleteRoots(b, e);
        var need := roots.Straddled(b, e);
        var ptr := 1;
        if need {
          ptr := CoreMallocWithGc(ThreeWords(w, 1), stack, true);
        }
        ok := CutRoots(b, e, need, ptr != 0);
      }
    }

    method DeleteRoots(b: nat, e: nat)
      requires Sane(0) && b < e
      modifies roots, this`freeBytes
      ensures Sane(0) && forall r :: r in roots.list ==> !r.Inside(b, e)
      ensures forall a :: roots.Covers(a) && !(b <= a < e) <==> old(roots.Covers(a)) && !(b <= a < e)
      ensures roots.Straddled(b, e) ==> forall a :: roots.Covers(a) <==> old(roots.Covers(a))
    {
      hide Sane, ObjHtable.Valid, ChainTable<ObjLink>.Valid, DataRoots.Valid, Root.Inside;
      Pieces(0);
      RootsSpaced();
      var freed := roots.DelInside(b, e);
      freeBytes := freeBytes + ThreeWords(w, freed);
      DataRoots.OutsideCovers(old(roots.list), roots.list, b, e);
      if roots.Straddled(b, e) {
        ghost var r :| r in roots.list && r.begin < b && e < r.end;
        DataRoots.StraddledCovers(old(roots.list), roots.list, b, e, r);
      }
      SaneRoots(0);
    }

    lemma RootsSpaced()
      requires roots.Valid()
      ensures Spaced(roots.list)
    {
    }

    method CutRoots(b: nat, e: nat, need: bool, room: bool) returns (ok: bool)
      requires Sane(if need && room then ThreeWords(w, 1) else 0) && b < e && (!need ==> room) && need == roots.Straddled(b, e)
      requires forall r :: r in roots.list ==> !r.Inside(b, e)
      modifies roots, this`freeBytes
      ensures Sane(0)
      ensures ok ==> forall a :: roots.Covers(a) <==> old(roots.Covers(a)) && !(b <= a < e)
      ensures !ok ==> need && forall a :: roots.Covers(a) <==> old(roots.Covers(a))
    {
      hide Sane, ObjHtable.Valid, ChainTable<ObjLink>.Valid, DataRoots.Valid, DataRoots.Straddled, DataRoots.Covers, Root.Inside;
      Pieces(if need && room then ThreeWords(w, 1) else 0);
      ok := roots.Exclude(b, e, room);
      SaneRoots(if need && room then ThreeWords(w, 1) else 0);
    }

    // Whether the stack visibly holds a pointer to obj.
    method OnStack(stack: seq<Root>, obj: nat) returns (held: bool)
      requires Sane(0)
      ensures held ==> forall o: ObjLink :: o.obj == obj ==> Held(stack, o)
    {
      hide Sane, ObjHtable.Valid, ChainTable<ObjLink>.Valid, DataRoots.Valid;
      Pieces(0);
      var i := 0;
      while i < |stack| {
        var a, k := stack[i].begin, 0;
        while a < stack[i].end
          invariant a == stack[i].begin + k * w.Bytes()
        {
          if Load(w, mem, a) == obj && a < w.Modulus() {
            var link := dlinks.Find(Hide(w, a));
            if link.None? {
              assert forall o: ObjLink :: o.obj == obj ==> Holds(stack[i], k, o);
              return true;
            }
          }
          a, k := a + w.Bytes(), k + 1;
        }
        i := i + 1;
      }
      return false;
    }

    // One thing the program asks for, with the stack it has then.  Finalizers are
    // added, dropped and handed out one by one, and none is lost or doubled.
    method Step(op: Request, stack: seq<Root>)
      returns (ghost added: Option<Finalizer>, ghost dropped: Option<Finalizer>, ghost handed: Option<Finalizer>)
      requires Sane(0)
      modifies this, objs, dlinks, fnlzs, roots
      ensures Sane(0) && maxHeap >= old(maxHeap) && (!op.RaiseMax? ==> maxHeap == old(maxHeap))
      ensures Counted(Asked(op))
      ensures Due() + One(dropped) + One(handed) == old(Due()) + One(added)
    {
      hide Sane, Held, Accounts, ObjectBytes, DueOf, One, ObjHtable.Live, ObjHtable.LiveBytes, DataRoots.Covers;
      BytesWithinHeap(0);
      OneNone();
      added, dropped, handed := None, None, None;
      match op
      case Allocate(size, atomic) =>
        var mayStop: bool, mayCollect: bool := *, *;
        var _, _ := Malloc(size, atomic, stack, mayStop, mayCollect);
      case Gc(mayStop) => CollectFor(stack, mayStop);
      case Link(link, obj) =>
        if link < w.Modulus() && obj < w.Modulus() {
          var held := OnStack(stack, obj);
          if held {
            var _ := RegisterDlink(link, obj, stack);
          }
        }
      case Unlink(link) =>
        if link < w.Modulus() {
          var _ := UnregisterDlink(link);
        }
      case Finalize(obj, fn, client) =>
        if obj < w.Modulus() && client < w.Modulus() {
          var held := OnStack(stack, obj);
          if held {
            var res, replaced;
            res, replaced, added := RegisterFinalizer(obj, fn, client, stack);
            dropped := replaced;
          }
        }
      case RunFinalizer =>
        var next := TakeReady();
        handed := next;
      case BaseOf(addr) =>
        if 0 < addr < w.Modulus() {
          var _ := Find(addr);
        }
      case AddRoot(begin, end) =>
        if begin < w.Modulus() && end < w.Modulus() {
          var _ := AddRoots(begin, end, stack);
        }
      case RemoveRoot(low, high) =>
        if low < w.Modulus() && high < w.Modulus() {
          RemoveRoots(low, high);
        }
      case ExcludeRoot(low, high) =>
        if low < w.Modulus() && high < w.Modulus() {
          var _ := ExcludeRoots(low, high, stack);
        }
      case Expand(size) =>
        if size < w.Modulus() {
          var _ := HeapExpand(size);
        }
      case RaiseMax(max) => RaiseMaximum(max);
      case Write(content) => mem := content;
    }

    method RaiseMaximum(max: nat)
      requires Sane(0)
      modifies this`maxHeap
      ensures Sane(0) && maxHeap >= old(maxHeap)
    {
      hide Parts, Attached, Used;
      if maxHeap <= max < w.Modulus() {
        maxHeap := max;
      }
    }

    // Any run of requests keeps every invariant, and the heap within the maximum
    // it started with unless the program raises it.  The accounts stay exact as
    // long as the heap, whose size is never reduced, is smaller than the tag.
    // Of the finalizers that were due or have been added, each is dropped, handed
    // out or still due, as many times as it was registered.
    method Run(run: seq<(Request, seq<Root>)>)
      returns (ghost added: multiset<Finalizer>, ghost dropped: multiset<Finalizer>, ghost handed: multiset<Finalizer>)
      requires Sane(0)
      modifies this, objs, dlinks, fnlzs, roots
      ensures Parts() && Attached()
      ensures totalHeap - freeBytes == Used() && totalHeap <= maxHeap
      ensures (forall i :: 0 <= i < |run| ==> !run[i].0.RaiseMax?) ==> totalHeap <= old(maxHeap)
      ensures old(Accounts()) && totalHeap < w.Tag() ==> Accounts()
      ensures Due() + dropped + handed == old(Due()) + added
    {
      hide Due, Accounts;
      added, dropped, handed := RunSane(run);
    }

    method RunSane(run: seq<(Request, seq<Root>)>)
      returns (ghost added: multiset<Finalizer>, ghost dropped: multiset<Finalizer>, ghost handed: multiset<Finalizer>)
      requires Sane(0)
      modifies this, objs, dlinks, fnlzs, roots
      ensures Sane(0)
      ensures (forall i :: 0 <= i < |run| ==> !run[i].0.RaiseMax?) ==> maxHeap == old(maxHeap)
      ensures old(Accounts()) && totalHeap < w.Tag() ==> Accounts()
      ensures Due() + dropped + handed == old(Due()) + added
    {
      hide Sane, Due, One, Accounts, ObjectBytes;
      added, dropped, handed := multiset{}, multiset{}, multiset{};
      for i := 0 to |run|
        invariant Sane(0)
        invariant (forall j :: 0 <= j < i ==> !run[j].0.RaiseMax?) ==> maxHeap == old(maxHeap)
        invariant totalHeap >= old(totalHeap) && (old(Accounts()) && totalHeap < w.Tag() ==> Accounts())
        invariant Due() + dropped + handed == old(Due()) + added
      {
        ghost var before := Due();
        ghost var a, d, h := Step(run[i].0, run[i].1);
        Tally(old(Due()), before, Due(), added, dropped, handed, One(a), One(d), One(h));
        added, dropped, handed := added + One(a), dropped + One(d), handed + One(h);
      }
    }
  }

  // The bytes of the object a request may create: one is added for interior
  // pointers.
  function Asked(op: Request): nat {
    if op.Allocate? then op.size + 1 else 0
  }

  lemma Tally<T>(m0: multiset<T>, m1: multiset<T>, m2: multiset<T>, a: multiset<T>, d: multiset<T>, h: multiset<T>,
      a1: multiset<T>, d1: multiset<T>, h1: multiset<T>)
    requires m1 + d + h == m0 + a && m2 + d1 + h1 == m1 + a1
    ensures m2 + (d + d1) + (h + h1) == m0 + (a + a1)
  {
    calc {
      m2 + (d + d1) + (h + h1);
      (m2 + d1 + h1) + d + h;
      (m1 + a1) + d + h;
      (m1 + d + h) + a1;
      (m0 + a) + a1;
    }
  }

  lemma OneNone()
    ensures One(None) == multiset{}
  {
  }
}
