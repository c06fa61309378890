/**
  GC_obj_htable_s of tinygc.c: the bucket table of objlinks and the four lists
  next to it.  Marking moves objlinks out of the table; what is left in it
  after marking is garbage; marked objlinks return lazily.
*/
module ObjectTable {
  import opened Options
  import opened Words
  import opened Chains
  import opened ObjectLinks
  import opened Pointers

  lemma EmptyBuckets(h: seq<seq<ObjLink>>, log2: nat)
    requires |h| == Pow2(log2) && forall b :: 0 <= b < |h| ==> h[b] == []
    ensures Placed(h, log2) && Flatten(h) == [] && Members(h) == {}
  {
    FlattenEmpty(h);
  }

  ghost function AllLinks(table: seq<ObjLink>, follow: seq<ObjLink>, marked: seq<ObjLink>, free: seq<ObjLink>): multiset<ObjLink> {
    multiset(table) + multiset(follow) + multiset(marked) + multiset(free)
  }

  // An objlink that leaves the table for the front of either list stays known.
  lemma PushKeepsLinks(w: Width, t: seq<ObjLink>, t': seq<ObjLink>, follow: seq<ObjLink>, marked: seq<ObjLink>, free: seq<ObjLink>, o: ObjLink)
    requires multiset(t') + multiset{o} == multiset(t)
    ensures AllLinks(t', [o] + follow, marked, free) == AllLinks(t, follow, marked, free)
    ensures AllLinks(t', follow, [o] + marked, free) == AllLinks(t, follow, marked, free)
    ensures Bytes(w, [o] + follow) == o.Size(w) + Bytes(w, follow)
    ensures Bytes(w, [o] + marked) == o.Size(w) + Bytes(w, marked)
  {
    var x, f, m, r := multiset{o}, multiset(follow), multiset(marked), multiset(free);
    assert multiset([o] + follow) == x + f && multiset([o] + marked) == x + m;
    assert multiset(t') + (x + f) == (multiset(t') + x) + f;
    assert multiset(t') + f + (x + m) == (multiset(t') + x) + f + m;
    assert ([o] + follow)[1..] == follow && ([o] + marked)[1..] == marked;
  }

  lemma SameLinks(w: Width, table: seq<ObjLink>, follow: seq<ObjLink>, follow': seq<ObjLink>, marked: seq<ObjLink>, marked': seq<ObjLink>, free: seq<ObjLink>, o: ObjLink)
    requires follow == [o] + follow' && marked' == [o] + marked
    ensures AllLinks(table, follow', marked', free) == AllLinks(table, follow, marked, free)
    ensures Bytes(w, follow') + Bytes(w, marked') == Bytes(w, follow) + Bytes(w, marked)
  {
    assert follow[1..] == follow' && marked'[1..] == marked;
    var x, t, f, m := multiset{o}, multiset(table), multiset(follow'), multiset(marked);
    assert multiset(follow) == x + f && multiset(marked') == x + m;
    assert t + (x + f) + m == t + f + (x + m);
  }

  lemma EnteredKeepsLinks(w: Width, t: seq<ObjLink>, t': seq<ObjLink>, follow: seq<ObjLink>, follow': seq<ObjLink>, marked: seq<ObjLink>, marked': seq<ObjLink>, free: seq<ObjLink>, o: ObjLink)
    requires multiset(t') == multiset(t) + multiset{o} && Bytes(w, t') == Bytes(w, t) + o.Size(w)
    requires (follow == [o] + follow' && marked' == marked) || (marked == [o] + marked' && follow' == follow)
    ensures AllLinks(t', follow', marked', free) == AllLinks(t, follow, marked, free)
    ensures Bytes(w, t') + Bytes(w, follow') + Bytes(w, marked') == Bytes(w, t) + Bytes(w, follow) + Bytes(w, marked)
  {
    PushKeepsLinks(w, t', t, follow', marked', free, o);
  }

  // Less than a page back is the page of addr or the one of addr - 255.
  lemma NearPage(log2: nat, addr: nat, obj: nat)
    requires obj <= addr && addr - obj < PAGE
    ensures Hash(log2, obj) == Hash(log2, addr) || (addr >= PAGE - 1 && Hash(log2, obj) == Hash(log2, addr - (PAGE - 1)))
  {
    if obj / PAGE == addr / PAGE {
      SamePageSameHash(log2, obj, addr);
    } else {
      assert obj / PAGE == (addr - (PAGE - 1)) / PAGE;
      SamePageSameHash(log2, obj, addr - (PAGE - 1));
    }
  }

  lemma NoLinks()
    ensures AllLinks([], [], [], []) == multiset{}
  {
  }

  lemma SwapLists(t: seq<ObjLink>, follow: seq<ObjLink>, marked: seq<ObjLink>)
    ensures AllLinks(t, follow, marked, []) == AllLinks(t, follow, [], marked)
  {
  }

  lemma LiveIsRest(table: seq<ObjLink>, follow: seq<ObjLink>, marked: seq<ObjLink>, free: seq<ObjLink>, o: ObjLink)
    ensures (o in table || o in follow || o in marked) <==> AllLinks(table, follow, marked, free)[o] > multiset(free)[o]
  {
  }

  lemma TwiceListed(table: seq<ObjLink>, follow: seq<ObjLink>, marked: seq<ObjLink>, free: seq<ObjLink>, o: ObjLink)
    requires o in follow || o in marked
    ensures o in AllLinks(table, follow, marked, free)
    ensures o in table ==> AllLinks(table, follow, marked, free)[o] >= 2
  {
  }

  // addr - o.obj < size, computed on words.
  lemma WordCovers(w: Width, addr: nat, o: ObjLink)
    requires o.Ok(w) && addr < w.Modulus()
    ensures Sub(w, addr, o.obj) < o.Size(w) <==> o.Covers(w, addr)
  {
  }

  // list extends list0 at the front by the atomic (or the other) members of
  // moved.
  ghost predicate Gained(w: Width, list0: seq<ObjLink>, list: seq<ObjLink>, moved: set<ObjLink>, atomic: bool)
  {
    && |list0| <= |list| && list[|list| - |list0|..] == list0
    && forall o :: o in list[..|list| - |list0|] <==> o in moved && o.Atomic(w) == atomic
  }

  lemma GainedNothing(w: Width, list: seq<ObjLink>, atomic: bool)
    ensures Gained(w, list, list, {}, atomic)
  {
  }

  lemma GainedOne(w: Width, list0: seq<ObjLink>, list: seq<ObjLink>, o: ObjLink, atomic: bool)
    requires list == if o.Atomic(w) == atomic then [o] + list0 else list0
    ensures Gained(w, list0, list, {o}, atomic)
  {
  }

  lemma GainedMembers(w: Width, list0: seq<ObjLink>, list: seq<ObjLink>, moved: set<ObjLink>, atomic: bool)
    requires Gained(w, list0, list, moved, atomic)
    ensures forall o :: o in list <==> o in list0 || (o in moved && o.Atomic(w) == atomic)
  {
    assert list == list[..|list| - |list0|] + list0;
  }

  lemma GainedLength(w: Width, list0: seq<ObjLink>, list: seq<ObjLink>, moved: set<ObjLink>, atomic: bool)
    requires Gained(w, list0, list, moved, atomic)
    ensures moved == {} ==> list == list0
  {
    var front := list[..|list| - |list0|];
    assert list == front + list0;
    assert front != [] ==> front[0] in moved;
  }

  lemma GainedMore(w: Width, a: seq<ObjLink>, b: seq<ObjLink>, c: seq<ObjLink>, m: set<ObjLink>, n: set<ObjLink>, atomic: bool)
    requires Gained(w, a, b, m, atomic) && Gained(w, b, c, n, atomic)
    ensures Gained(w, a, c, m + n, atomic)
  {
    var i, j := |c| - |b|, |b| - |a|;
    assert c[i..][j..] == c[|c| - |a|..];
    assert c[..|c| - |a|] == c[..i] + c[i..][..j];
  }

  // Blank objlinks are distinct and none of them is in use.
  ghost predicate Blank(t: multiset<ObjLink>, blanks: seq<nat>) {
    && (forall a :: a in blanks ==> 0 < a)
    && (forall i, j :: 0 <= i < j < |blanks| ==> blanks[i] != blanks[j])
    && (forall o {:trigger t[o]} :: t[o] > 0 ==> o.at !in blanks)
  }

  // atomic_and_size
  function Tagged(w: Width, size: nat, atomic: bool): (r: nat) {
    if atomic then size + w.Tag() else size
  }

  lemma BlankConcat(t: multiset<ObjLink>, a: seq<nat>, b: seq<nat>)
    requires Blank(t, a) && Blank(t, b) && forall x :: x in a ==> x !in b
    ensures Blank(t, a + b)
  {
    forall i, j | 0 <= i < j < |a + b| ensures (a + b)[i] != (a + b)[j] {
      if i < |a| <= j {
        assert a[i] in a && b[j - |a|] in b;
      }
    }
  }

  lemma SoundAdd(w: Width, t: multiset<ObjLink>, blanks: seq<nat>, o: ObjLink)
    requires Sound(w, t) && Blank(t, blanks) && blanks != [] && blanks[0] == o.at
    requires o.Ok(w) && forall p :: p in t ==> Apart(w, o, p)
    ensures Sound(w, t + multiset{o}) && Blank(t + multiset{o}, blanks[1..])
  {
    assert t[o] == 0 by { assert o.at in blanks; }
    assert forall a :: a in blanks[1..] ==> a in blanks;
    forall p, q | p in t + multiset{o} && q in t + multiset{o} && p != q ensures p.at != q.at && Apart(w, p, q) {
      assert o.at in blanks;
    }
  }

  lemma SoundFree(w: Width, t: multiset<ObjLink>, t': multiset<ObjLink>, blanks: seq<nat>, o: ObjLink)
    requires Sound(w, t) && Blank(t, blanks) && t' + multiset{o} == t
    ensures Sound(w, t') && Blank(t', [o.at] + blanks)
  {
    assert o in t;
    forall p ensures t'[p] == if p == o then 0 else t[p] {
      assert (t' + multiset{o})[p] == t[p];
    }
  }

  lemma AddedLinks(t: seq<ObjLink>, t': seq<ObjLink>, follow: seq<ObjLink>, marked: seq<ObjLink>, free: seq<ObjLink>, o: ObjLink)
    requires multiset(t') == multiset(t) + multiset{o}
    ensures AllLinks(t', follow, marked, free) == AllLinks(t, follow, marked, free) + multiset{o}
  {
    var x, f, m, r := multiset{o}, multiset(follow), multiset(marked), multiset(free);
    assert multiset(t) + x + f + m + r == multiset(t) + f + m + r + x;
  }

  lemma DroppedLinks(t: seq<ObjLink>, t': seq<ObjLink>, chain: seq<ObjLink>, follow: seq<ObjLink>, marked: seq<ObjLink>, free: seq<ObjLink>)
    requires multiset(t') + multiset(chain) == multiset(t) + multiset([])
    ensures AllLinks(t', follow, marked, chain + free) == AllLinks(t, follow, marked, free)
  {
    var x, f, m, r := multiset(chain), multiset(follow), multiset(marked), multiset(free);
    assert multiset(t') + f + m + (x + r) == (multiset(t') + x) + f + m + r;
  }

  lemma DroppedMembers(h: seq<seq<ObjLink>>, log2: nat, b: nat)
    requires Placed(h, log2) && b < |h|
    ensures Placed(h[b := []], log2)
    ensures forall o :: o in Members(h[b := []]) <==> o in Members(h) && o !in h[b]
  {
    hide Members, Hash;
    assert InBucket([], b, log2);
    assert InBucket(h[b], b, log2);
    forall o ensures o in Members(h[b := []]) <==> o in Members(h) && o !in h[b] {
      InMembers(h, log2, o);
      InMembers(h[b := []], log2, o);
    }
  }

  lemma FreedLinks(t: seq<ObjLink>, follow: seq<ObjLink>, marked: seq<ObjLink>, free: seq<ObjLink>, free': seq<ObjLink>, o: ObjLink)
    requires free != [] && free[0] == o && free' == free[1..]
    ensures AllLinks(t, follow, marked, free') + multiset{o} == AllLinks(t, follow, marked, free)
  {
    assert free == [o] + free';
    assert multiset(free) == multiset{o} + multiset(free');
  }

  class ObjHtable {
    const w: Width
    var hroots: seq<seq<ObjLink>>
    var freeList: seq<ObjLink>
    var markedList: seq<ObjLink>
    var followList: seq<ObjLink>
    var unlinkedList: seq<nat>
    var minObjAddr: nat
    var maxObjAddr: nat
    var count: nat
    var log2Size: nat
    var pendingFreeSize: nat

    ghost function Table(): set<ObjLink>
      reads this`hroots
    {
      Members(hroots)
    }

    // Every objlink in use, wherever it is.
    ghost function Tracked(): multiset<ObjLink>
      reads this`hroots, this`followList, this`markedList, this`freeList
    {
      AllLinks(Flatten(hroots), followList, markedList, freeList)
    }

    // Bytes of the objects that are not on the free list.
    ghost function LiveBytes(): nat
      reads this`hroots, this`followList, this`markedList
    {
      Bytes(w, Flatten(hroots)) + Bytes(w, followList) + Bytes(w, markedList)
    }

    ghost predicate Ranged()
      reads this`hroots, this`minObjAddr, this`maxObjAddr
    {
      && 0 < minObjAddr < w.Modulus() && PAGE <= maxObjAddr < w.Modulus()
      && forall o :: o in Table() ==> minObjAddr <= o.obj && o.obj + PAGE <= maxObjAddr
    }

    // Some object has been entered since the bounds were last reset.
    predicate Anchored()
      reads this`minObjAddr, this`maxObjAddr
    {
      minObjAddr + PAGE <= maxObjAddr
    }

    // Everything but the count.
    ghost predicate Intact()
      reads this`hroots, this`freeList, this`markedList, this`followList, this`unlinkedList
      reads this`minObjAddr, this`maxObjAddr, this`log2Size
    {
      && Placed(hroots, log2Size)
      && Sound(w, Tracked())
      && Ranged()
      && Blank(Tracked(), unlinkedList)
    }

    ghost predicate Valid()
      reads this`hroots, this`freeList, this`markedList, this`followList, this`unlinkedList
      reads this`minObjAddr, this`maxObjAddr, this`log2Size, this`count
    {
      Intact() && count == |Flatten(hroots)|
    }

    ghost predicate PendingExact()
      reads this`freeList, this`pendingFreeSize
    {
      pendingFreeSize == Bytes(w, freeList)
    }

    function TheView(): View
      reads this`log2Size, this`minObjAddr, this`maxObjAddr
    {
      View(w, log2Size, minObjAddr, maxObjAddr)
    }

    constructor (w: Width, log2: nat)
      ensures Valid() && PendingExact() && this.w == w && log2Size == log2
      ensures Tracked() == multiset{} && unlinkedList == [] && fresh(this)
      ensures Flatten(hroots) == [] && followList == [] && markedList == [] && freeList == []
    {
      this.w := w;
      hroots := seq(Pow2(log2), _ => []);
      freeList, markedList, followList, unlinkedList := [], [], [], [];
      minObjAddr, maxObjAddr := w.Modulus() - 1, PAGE;
      count, log2Size, pendingFreeSize := 0, log2, 0;
      new;
      hide Flatten, Hash, AllLinks, Placed;
      EmptyBuckets(hroots, log2);
      NoLinks();
    }

    // Address 0 is below every object.
    lemma NullOutOfRange()
      requires Valid() && Anchored()
      ensures !TheView().InRange(0)
    {
    }

    lemma TrackedTable(o: ObjLink)
      requires Valid() && o in Table()
      ensures o in Tracked() && o.Ok(w) && o in hroots[Hash(log2Size, o.obj)]
    {
      InMembers(hroots, log2Size, o);
    }

    lemma TableTracked()
      requires Valid()
      ensures Sound(w, Tracked()) && forall p :: p in Table() ==> p in Tracked()
    {
      forall p | p in Table() ensures p in Tracked() {
        TrackedTable(p);
      }
    }

    lemma ChainSound(b: nat)
      requires Valid() && b < |hroots|
      ensures Descending(hroots[b])
      ensures forall p :: p in hroots[b] ==> p in Table() && p.Ok(w) && Hash(log2Size, p.obj) == b
      ensures forall p, q :: p in hroots[b] && q in hroots[b] && p != q ==> Apart(w, p, q)
    {
      assert InBucket(hroots[b], b, log2Size);
      forall p | p in hroots[b] ensures p in Table() && p in Tracked() && p.Ok(w) {
        InMembers(hroots, log2Size, p);
        TrackedTable(p);
      }
    }

    // while (objlink->obj > addr) objlink = objlink->next
    method Probe(b: nat, addr: nat) returns (i: nat)
      requires b < |hroots|
      ensures EntryPoint(hroots[b], i, addr)
    {
      i := 0;
      while i < |hroots[b]| && hroots[b][i].obj > addr
        invariant i <= |hroots[b]|
        invariant forall j :: 0 <= j < i ==> hroots[b][j].obj > addr
      {
        i := i + 1;
      }
    }

    // The objlink at an entry point; GC_nil_objlink ends every chain.
    function At(b: nat, i: nat): ObjLink
      requires b < |hroots| && i <= |hroots[b]|
      reads this`hroots
    {
      if i < |hroots[b]| then hroots[b][i] else ObjLink(0, 0, 0)
    }

    // A probe finds the object of its bucket that covers addr, if there is one.
    lemma ProbeFinds(b: nat, i: nat, addr: nat)
      requires Valid() && b < |hroots| && EntryPoint(hroots[b], i, addr)
      ensures At(b, i).Size(w) > addr - At(b, i).obj ==> i < |hroots[b]| && At(b, i).Covers(w, addr)
      ensures At(b, i).Size(w) <= addr - At(b, i).obj ==> forall o :: o in hroots[b] ==> !o.Covers(w, addr)
    {
      ChainSound(b);
      forall o | o in hroots[b] && o.Covers(w, addr) ensures i < |hroots[b]| && At(b, i) == o {
        CoveringIsEntry(w, hroots[b], i, addr, o);
      }
    }

    // The two probes of GC_scan_region and GC_objlink_mark.
    method Locate(addr: nat, interior: bool) returns (found: bool, b: nat, i: nat)
      requires Valid() && addr < w.Modulus() && (!interior ==> addr != 0)
      ensures found ==> b < |hroots| && i < |hroots[b]| && Hits(w, log2Size, interior, addr, hroots[b][i])
      ensures !found ==> forall o :: o in Table() ==> !Hits(w, log2Size, interior, addr, o)
    {
      found := true;
      b := Hash(log2Size, addr);
      i := Probe(b, addr);
      ProbeFinds(b, i, addr);
      ghost var b1 := b;
      if interior {
        if At(b, i).Size(w) <= addr - At(b, i).obj {
          ghost var b2 := b;
          if addr % PAGE == PAGE - 1 {
            found := false;
          } else {
            b := Hash(log2Size, Sub(w, addr, PAGE));
            b2 := b;
            i := Probe(b, addr);
            ProbeFinds(b, i, addr);
            found := At(b, i).Size(w) > addr - At(b, i).obj;
          }
          if !found {
            forall o | o in Table() ensures !Hits(w, log2Size, interior, addr, o) {
              InMembers(hroots, log2Size, o);
            }
          } else {
            ChainSound(b);
          }
        } else {
          ChainSound(b);
        }
      } else {
        found := At(b, i).obj == addr;
        ChainSound(b);
        if !found {
          forall o | o in Table() ensures o.obj != addr {
            InMembers(hroots, log2Size, o);
            TrackedTable(o);
            if o.obj == addr {
              assert o.Covers(w, addr);
              CoveringIsEntry(w, hroots[b], i, addr, o);
            }
          }
        }
      }
    }

    // Take an objlink out of the table: marked if atomic, else to be followed.
    method Move(b: nat, i: nat) returns (o: ObjLink)
      requires Valid() && b < |hroots| && i < |hroots[b]|
      modifies this`hroots, this`count, this`markedList, this`followList
      ensures Valid()
      ensures Tracked() == old(Tracked()) && LiveBytes() == old(LiveBytes())
      ensures o == old(hroots[b][i]) && o in old(Table()) && Table() == old(Table()) - {o}
      ensures if o.Atomic(w) then markedList == [o] + old(markedList) && followList == old(followList)
        else markedList == old(markedList) && followList == [o] + old(followList)
    {
      hide Tracked, LiveBytes, Table, Sound, Blank, Placed, Ranged;
      o := hroots[b][i];
      hroots := Unlinked(hroots, b, i);
      assert count > 0 by { UnlinkedMultiset(old(hroots), b, i); }
      count := count - 1;
      if o.Atomic(w) {
        markedList := [o] + markedList;
      } else {
        followList := [o] + followList;
      }
      MovedOutTable(b, i);
      MovedOutLists(b, i);
    }

    // The table after an objlink has left it.
    twostate lemma MovedOutTable(b: nat, new i: nat)
      requires old(Valid()) && b < old(|hroots|) && i < old(|hroots[b]|)
      requires hroots == Unlinked(old(hroots), b, i) && unchanged(this`minObjAddr, this`maxObjAddr, this`log2Size)
      ensures var o := old(hroots[b][i]);
        && Placed(hroots, log2Size) && Ranged()
        && |Flatten(hroots)| + 1 == old(|Flatten(hroots)|)
        && o in old(Table()) && Table() == old(Table()) - {o}
    {
      UnlinkedEffect(w, old(hroots), log2Size, b, i);
    }

    // The lists after that objlink has been put at the front of one of them.
    twostate lemma MovedOutLists(b: nat, new i: nat)
      requires old(Placed(hroots, log2Size)) && b < old(|hroots|) && i < old(|hroots[b]|)
      requires hroots == Unlinked(old(hroots), b, i) && freeList == old(freeList)
      requires var o := old(hroots[b][i]);
        if o.Atomic(w) then markedList == [o] + old(markedList) && followList == old(followList)
        else markedList == old(markedList) && followList == [o] + old(followList)
      ensures Tracked() == old(Tracked()) && LiveBytes() == old(LiveBytes())
    {
      var o := old(hroots[b][i]);
      UnlinkedEffect(w, old(hroots), old(log2Size), b, i);
      PushKeepsLinks(w, old(Flatten(hroots)), Flatten(hroots), old(followList), old(markedList), freeList, o);
    }

    // Take the object at an entry out of the table for a word that hits it.
    method TakeHit(addr: nat, interior: bool, b: nat, i: nat) returns (o: ObjLink)
      requires Valid() && b < |hroots| && i < |hroots[b]| && Hits(w, log2Size, interior, addr, hroots[b][i])
      modifies this`hroots, this`count, this`markedList, this`followList
      ensures Valid() && Tracked() == old(Tracked()) && LiveBytes() == old(LiveBytes())
      ensures o in old(Table()) && Table() == old(Table()) - {o}
      ensures forall p :: p in old(Table()) ==> (Hits(w, log2Size, interior, addr, p) <==> p == o)
      ensures Gained(w, old(followList), followList, {o}, false)
      ensures Gained(w, old(markedList), markedList, {o}, true)
    {
      hide Valid, Tracked, LiveBytes, Table, Hits, Gained, Sound;
      TableTracked();
      ghost var table, tracked := Table(), Tracked();
      o := Move(b, i);
      GainedOne(w, old(followList), followList, o, false);
      GainedOne(w, old(markedList), markedList, o, true);
      forall p | p in table && Hits(w, log2Size, interior, addr, p) ensures p == o {
        UniqueHit(w, log2Size, tracked, interior, addr, o, p);
      }
    }

    // GC_objlink_mark
    method Mark(addr: nat, interior: bool) returns (done: bool, ghost o: ObjLink)
      requires Valid() && 0 < addr < w.Modulus()
      modifies this`hroots, this`count, this`markedList, this`followList
      ensures Valid() && Tracked() == old(Tracked()) && LiveBytes() == old(LiveBytes())
      ensures done ==> o in old(Table()) && Table() == old(Table()) - {o}
      ensures done ==> forall p :: p in old(Table()) ==> (Hits(w, log2Size, interior, addr, p) <==> p == o)
      ensures done ==> Gained(w, old(followList), followList, {o}, false) && Gained(w, old(markedList), markedList, {o}, true)
      ensures !done ==> unchanged(this) && forall p :: p in Table() ==> !Hits(w, log2Size, interior, addr, p)
    {
      hide Valid, Tracked, LiveBytes, Table, Hits, Gained;
      var b, i;
      done, b, i := Locate(addr, interior);
      o := ObjLink(0, 0, 0);
      if done {
        o := TakeHit(addr, interior, b, i);
      }
    }

    // One word of GC_scan_region.
    method ScanWord(addr: nat, interior: bool) returns (ghost moved: set<ObjLink>)
      requires Valid() && Anchored() && addr < w.Modulus()
      modifies this`hroots, this`count, this`markedList, this`followList
      ensures Valid() && Tracked() == old(Tracked()) && LiveBytes() == old(LiveBytes())
      ensures moved <= old(Table()) && Table() == old(Table()) - moved
      ensures forall o :: o in old(Table()) ==> (o in moved <==> TheView().PointsTo(interior, addr, o))
      ensures Gained(w, old(followList), followList, moved, false) && Gained(w, old(markedList), markedList, moved, true)
    {
      hide Valid, Tracked, LiveBytes, Table, Hits, Gained, View.InRange, Anchored;
      GainedNothing(w, followList, false);
      GainedNothing(w, markedList, true);
      moved := {};
      if TheView().InRange(addr) && (interior || addr % w.Bytes() == 0) {
        NullOutOfRange();
        var done, o := Mark(addr, interior);
        if done {
          moved := {o};
        }
      }
    }

    // GC_scan_region: every object some word of the region points at leaves the
    // table, and no other.
    method ScanRegion(mem: Memory, begin: nat, end: nat, interior: bool) returns (ghost moved: set<ObjLink>)
      requires Valid() && Anchored()
      modifies this`hroots, this`count, this`markedList, this`followList
      ensures Valid() && Tracked() == old(Tracked()) && LiveBytes() == old(LiveBytes())
      ensures moved <= old(Table()) && Table() == old(Table()) - moved
      ensures forall o :: o in old(Table()) ==> (o in moved <==> TheView().Pointed(mem, interior, begin, end, o))
      ensures Gained(w, old(followList), followList, moved, false) && Gained(w, old(markedList), markedList, moved, true)
    {
      hide Valid, Tracked, LiveBytes, Table, View.PointsTo, View.Pointed, Gained, Anchored;
      var region := begin;
      GainedNothing(w, followList, false);
      GainedNothing(w, markedList, true);
      moved := {};
      while region < end
        invariant Valid() && Tracked() == old(Tracked()) && LiveBytes() == old(LiveBytes())
        invariant moved <= old(Table()) && Table() == old(Table()) - moved
        invariant forall o :: o in old(Table()) ==>
          (TheView().Pointed(mem, interior, begin, end, o) <==> o in moved || TheView().Pointed(mem, interior, region, end, o))
        invariant Gained(w, old(followList), followList, moved, false) && Gained(w, old(markedList), markedList, moved, true)
      {
        ghost var f, m := followList, markedList;
        TheView().PointedStep(mem, interior, region, end);
        var hit := ScanWord(Load(w, mem, region), interior);
        GainedMore(w, old(followList), f, followList, moved, hit, false);
        GainedMore(w, old(markedList), m, markedList, moved, hit, true);
        moved := moved + hit;
        region := region + w.Bytes();
      }
      TheView().PointedStep(mem, interior, region, end);
    }

    // GC_scan_followable's loop: r is closed under pointing and has everything
    // marked so far; only objects still to be followed point outside of what is
    // marked.
    ghost predicate Marking(g: Graph, t: set<ObjLink>, r: set<ObjLink>)
      reads this`hroots, this`followList
    {
      && Table() <= t && t - Table() <= r && g.Closed(t, r)
      && (forall p :: p in followList ==> p in t - Table() && !p.Atomic(w))
      && (forall p, o :: p in t - Table() && p !in followList && o in t && g.Edge(p, o) ==> o in t - Table())
    }

    // Regions may be scanned at any time; what they point at must be in r.
    twostate lemma RegionMarked(g: Graph, new t: set<ObjLink>, new r: set<ObjLink>, new moved: set<ObjLink>)
      requires old(Marking(g, t, r)) && g.view.w == w
      requires moved <= old(Table()) && Table() == old(Table()) - moved && moved <= r
      requires Gained(w, old(followList), followList, moved, false)
      ensures Marking(g, t, r)
    {
      GainedMembers(w, old(followList), followList, moved, false);
    }

    // The same for the objects one followed object points at.
    twostate lemma FollowedMarked(g: Graph, new t: set<ObjLink>, new r: set<ObjLink>, new moved: set<ObjLink>)
      requires old(Marking(g, t, r)) && g.view.w == w && old(followList) != []
      requires moved <= old(Table()) && Table() == old(Table()) - moved
      requires forall o :: o in old(Table()) ==> (o in moved <==> g.Edge(old(followList[0]), o))
      requires Gained(w, old(followList[1..]), followList, moved, false)
      ensures Marking(g, t, r)
    {
      hide Graph.Edge, Gained, Table;
      GainedMembers(w, old(followList[1..]), followList, moved, false);
      var head := old(followList[0]);
      assert head in old(followList);
      forall p, o | p in t - Table() && p !in followList && o in t && g.Edge(p, o) ensures o in t - Table() {
        if p in moved {
          assert p.Atomic(w);
          AtomicNoEdge(g, p, o);
        } else if p != head {
          assert p !in old(followList) by {
            assert old(followList == [followList[0]] + followList[1..]);
          }
        }
      }
      forall p | p in followList ensures p in t - Table() && !p.Atomic(w) {
        assert p in moved || p in old(followList);
      }
    }

    lemma AtomicNoEdge(g: Graph, p: ObjLink, o: ObjLink)
      requires p.Atomic(g.view.w)
      ensures !g.Edge(p, o)
    {
    }

    // An objlink at the head of the follow list becomes a marked one.
    method PopFollow() returns (o: ObjLink)
      requires Valid() && followList != []
      modifies this`followList, this`markedList
      ensures Valid() && Tracked() == old(Tracked()) && LiveBytes() == old(LiveBytes())
      ensures o == old(followList[0]) && followList == old(followList[1..]) && markedList == [o] + old(markedList)
    {
      hide Sound, Blank, Placed, Ranged, Bytes, AllLinks, Flatten;
      o := followList[0];
      followList := followList[1..];
      markedList := [o] + markedList;
      SameLinks(w, Flatten(hroots), old(followList), followList, old(markedList), markedList, freeList, o);
    }

    lemma HeadNotAtomic(g: Graph, t: set<ObjLink>, r: set<ObjLink>)
      requires followList != [] && Marking(g, t, r)
      ensures !followList[0].Atomic(w)
    {
    }

    // One round of GC_scan_followable.
    method Follow(mem: Memory, interior: bool, ghost t: set<ObjLink>, ghost r: set<ObjLink>)
      requires Valid() && Anchored() && followList != [] && Marking(Graph(TheView(), mem, interior), t, r)
      modifies this`hroots, this`count, this`markedList, this`followList
      ensures Valid() && Tracked() == old(Tracked()) && LiveBytes() == old(LiveBytes())
      ensures Marking(Graph(TheView(), mem, interior), t, r)
      ensures forall o :: o in Table() <==> o in old(Table()) && !Graph(TheView(), mem, interior).Edge(old(followList[0]), o)
      ensures Table() < old(Table()) || (Table() == old(Table()) && |followList| < old(|followList|))
    {
      hide Valid, Tracked, LiveBytes, Table, Marking, View.Pointed, Gained, Anchored, AllLinks;
      ghost var g := Graph(TheView(), mem, interior);
      HeadNotAtomic(g, t, r);
      var o := PopFollow();
      ghost var f := followList;
      var moved := ScanRegion(mem, o.obj, o.ScanEnd(w), interior);
      FollowedMarked(g, t, r, moved);
      GainedLength(w, f, followList, moved, false);
    }

    // GC_scan_followable; mayStop says whether stop_func can answer yes.
    method ScanFollowable(mem: Memory, interior: bool, ghost t: set<ObjLink>, ghost r: set<ObjLink>, mayStop: bool)
      requires Valid() && (followList != [] ==> Anchored()) && Marking(Graph(TheView(), mem, interior), t, r)
      modifies this`hroots, this`count, this`markedList, this`followList
      ensures Valid() && Tracked() == old(Tracked()) && LiveBytes() == old(LiveBytes())
      ensures Marking(Graph(TheView(), mem, interior), t, r)
      ensures Table() <= old(Table()) && (!mayStop ==> followList == [])
    {
      hide Valid, Tracked, LiveBytes, Table, Marking, Anchored;
      while followList != []
        invariant Valid() && Tracked() == old(Tracked()) && LiveBytes() == old(LiveBytes()) && Table() <= old(Table())
        invariant Marking(Graph(TheView(), mem, interior), t, r) && (followList != [] ==> Anchored())
        decreases Table(), |followList|
      {
        if mayStop {
          var stop: bool := *;
          if stop {
            return;
          }
        }
        Follow(mem, interior, t, r);
      }
    }

    // A word marks what it points at, if the object is among those to be
    // reached.
    method MarkSeed(addr: nat, seedInterior: bool, ghost g: Graph, ghost t: set<ObjLink>, ghost r: set<ObjLink>) returns (done: bool)
      requires Valid() && 0 < addr < w.Modulus() && g.view == TheView() && Marking(g, t, r)
      requires forall o :: o in t && Hits(w, log2Size, seedInterior, addr, o) ==> o in r
      modifies this`hroots, this`count, this`markedList, this`followList
      ensures Valid() && Tracked() == old(Tracked()) && LiveBytes() == old(LiveBytes()) && Marking(g, t, r)
      ensures Table() <= old(Table()) && forall o :: o in Table() ==> !Hits(w, log2Size, seedInterior, addr, o)
      ensures done == exists o :: o in old(Table()) && Hits(w, log2Size, seedInterior, addr, o)
      ensures forall o :: o in old(Table()) && o !in Table() ==> Hits(w, log2Size, seedInterior, addr, o)
    {
      hide Valid, Tracked, LiveBytes, Table, Hits, Gained, Marking;
      ghost var o;
      done, o := Mark(addr, seedInterior);
      if done {
        MarkingTable(g, t, r);
        RegionMarked(g, t, r, {o});
      }
    }

    // A region marks what its words point at.
    method ScanSeeds(mem: Memory, begin: nat, end: nat, seedInterior: bool, ghost g: Graph, ghost t: set<ObjLink>, ghost r: set<ObjLink>)
      requires Valid() && Anchored() && g.view == TheView() && Marking(g, t, r)
      requires forall o :: o in t && g.view.Pointed(mem, seedInterior, begin, end, o) ==> o in r
      modifies this`hroots, this`count, this`markedList, this`followList
      ensures Valid() && Tracked() == old(Tracked()) && LiveBytes() == old(LiveBytes()) && Marking(g, t, r)
      ensures Table() <= old(Table()) && forall o :: o in Table() ==> !g.view.Pointed(mem, seedInterior, begin, end, o)
    {
      hide Valid, Tracked, LiveBytes, Table, Gained, Marking, View.Pointed, Anchored;
      var moved := ScanRegion(mem, begin, end, seedInterior);
      MarkingTable(g, t, r);
      RegionMarked(g, t, r, moved);
    }

    twostate lemma MarkingTable(g: Graph, new t: set<ObjLink>, new r: set<ObjLink>)
      requires old(Marking(g, t, r))
      ensures old(Table()) <= t
    {
    }

    // With nothing left to follow, what stays in the table is what the seeds do
    // not reach.
    lemma MarkingComplete(g: Graph, t: set<ObjLink>, seeds: set<ObjLink>)
      requires Marking(g, t, g.Reach(t, seeds)) && followList == []
      requires seeds * t <= t - Table()
      ensures Table() == t - g.Reach(t, seeds)
    {
      hide Graph.Reach, Graph.Edge;
      assert g.Closed(t, t - Table());
      g.ReachLeast(t, seeds, t - Table());
    }

    // An objlink on the follow or marked list is not in the table.
    lemma ListedApart(o: ObjLink)
      requires Valid() && (o in followList || o in markedList)
      ensures o.Ok(w) && forall p :: p in Table() ==> p.obj != o.obj
    {
      hide AllLinks, Placed, Ranged, Blank, Hash, Flatten;
      TwiceListed(Flatten(hroots), followList, markedList, freeList, o);
      forall p | p in Table() ensures p.obj != o.obj {
        TrackedTable(p);
      }
    }

    // The insertion that GC_objlink_add and the refills share.
    method Enter(o: ObjLink)
      requires Placed(hroots, log2Size) && count == |Flatten(hroots)| && Ranged()
      requires o.Ok(w) && forall p :: p in Table() ==> p.obj != o.obj
      modifies this`hroots, this`count, this`minObjAddr, this`maxObjAddr
      ensures Placed(hroots, log2Size) && count == |Flatten(hroots)| && Ranged() && Anchored()
      ensures multiset(Flatten(hroots)) == multiset(Flatten(old(hroots))) + multiset{o}
      ensures Bytes(w, Flatten(hroots)) == Bytes(w, Flatten(old(hroots))) + o.Size(w)
      ensures Table() == old(Table()) + {o} && count == old(count) + 1
      ensures minObjAddr == if old(minObjAddr) >= o.obj then o.obj else old(minObjAddr)
      ensures maxObjAddr == if o.obj + PAGE > old(maxObjAddr) then o.obj + PAGE else old(maxObjAddr)
    {
      hide Flatten, Bytes, Placed;
      var b := Hash(log2Size, o.obj);
      assert b < |hroots| by { BucketExists(b); }
      var i := Probe(b, o.obj);
      if i < |hroots[b]| {
        BucketMember(b, i);
      }
      LinkedEffect(w, hroots, log2Size, i, o);
      hroots := Linked(hroots, b, i, o);
      count := count + 1;
      if minObjAddr >= o.obj {
        minObjAddr := o.obj;
      }
      if o.obj + PAGE > maxObjAddr {
        maxObjAddr := o.obj + PAGE;
      }
    }

    lemma BucketExists(b: nat)
      requires Placed(hroots, log2Size) && b < Pow2(log2Size)
      ensures b < |hroots|
    {
    }

    lemma BucketMember(b: nat, i: nat)
      requires Placed(hroots, log2Size) && b < |hroots| && i < |hroots[b]|
      ensures hroots[b][i] in Table()
    {
      assert InBucket(hroots[b], b, log2Size) && hroots[b][i] in hroots[b];
      InMembers(hroots, log2Size, hroots[b][i]);
    }

    // The head of the follow or marked list returns to the table.
    method RefillHead(fromFollow: bool) returns (o: ObjLink)
      requires Valid() && (if fromFollow then followList else markedList) != []
      modifies this`hroots, this`count, this`minObjAddr, this`maxObjAddr, this`markedList, this`followList
      ensures Valid() && Anchored() && Tracked() == old(Tracked()) && LiveBytes() == old(LiveBytes())
      ensures o == old(if fromFollow then followList[0] else markedList[0])
      ensures followList == old(if fromFollow then followList[1..] else followList)
      ensures markedList == old(if fromFollow then markedList else markedList[1..])
      ensures Table() == old(Table()) + {o}
    {
      hide Sound, Blank, Placed, Ranged, Bytes, AllLinks, Flatten, Table;
      o := if fromFollow then followList[0] else markedList[0];
      ListedApart(o);
      Enter(o);
      if fromFollow {
        followList := followList[1..];
      } else {
        markedList := markedList[1..];
      }
      EnteredKeepsLinks(w, old(Flatten(hroots)), Flatten(hroots), old(followList), followList, old(markedList), markedList, freeList, o);
    }

    // GC_objlink_some_refill: the first max objlinks of the follow list, or of
    // the marked list when there is nothing to follow, return to the table.
    method SomeRefill(max: nat) returns (moved: nat)
      requires Valid() && max > 0
      modifies this`hroots, this`count, this`minObjAddr, this`maxObjAddr, this`markedList, this`followList
      ensures Valid() && Tracked() == old(Tracked()) && LiveBytes() == old(LiveBytes())
      ensures var list := old(if followList != [] then followList else markedList);
        && moved == (if |list| < max then |list| else max)
        && followList == old(if followList != [] then followList[moved..] else followList)
        && markedList == old(if followList != [] then markedList else markedList[moved..])
        && Table() == old(Table()) + set o | o in list[..moved]
    {
      hide Valid, Tracked, LiveBytes, Table, Anchored;
      moved := 0;
      var fromFollow := followList != [];
      ghost var list := if fromFollow then followList else markedList;
      while moved < max && (if fromFollow then followList else markedList) != []
        invariant moved <= max && moved <= |list|
        invariant Valid() && Tracked() == old(Tracked()) && LiveBytes() == old(LiveBytes())
        invariant followList == old(if fromFollow then followList[moved..] else followList)
        invariant markedList == old(if fromFollow then markedList else markedList[moved..])
        invariant Table() == old(Table()) + set o | o in list[..moved]
      {
        var o := RefillHead(fromFollow);
        assert list[..moved + 1] == list[..moved] + [o];
        moved := moved + 1;
      }
    }

    // GC_objlink_refill_find: the listed objlinks return to the table until one
    // whose object contains addr has.
    method RefillFind(addr: nat) returns (found: Option<ObjLink>)
      requires Valid() && addr < w.Modulus()
      modifies this`hroots, this`count, this`minObjAddr, this`maxObjAddr, this`markedList, this`followList
      ensures Valid() && Tracked() == old(Tracked()) && LiveBytes() == old(LiveBytes())
      ensures forall o :: o in Table() || o in followList || o in markedList <==> old(o in Table() || o in followList || o in markedList)
      ensures found.Some? ==> found.value in Table() && found.value.Covers(w, addr) && old(found.value in followList || found.value in markedList)
      ensures found.None? ==> followList == [] && markedList == []
      ensures found.None? ==> forall o :: old(o in followList || o in markedList) ==> !o.Covers(w, addr)
    {
      hide Valid, Tracked, LiveBytes, Table, Anchored;
      while followList != [] || markedList != []
        invariant Valid() && Tracked() == old(Tracked()) && LiveBytes() == old(LiveBytes())
        invariant forall o :: o in followList ==> old(o in followList)
        invariant forall o :: o in markedList ==> old(o in markedList)
        invariant forall o :: o in Table() || o in followList || o in markedList <==> old(o in Table() || o in followList || o in markedList)
        invariant forall o :: old(o in followList || o in markedList) ==> o in followList || o in markedList || !o.Covers(w, addr)
        decreases |followList| + |markedList|
      {
        var o: ObjLink := if followList != [] then followList[0] else markedList[0];
        ListedApart(o);
        WordCovers(w, addr, o);
        assert followList != [] ==> followList == [o] + followList[1..];
        assert followList == [] ==> markedList == [o] + markedList[1..];
        o := RefillHead(followList != []);
        if Sub(w, addr, o.obj) < o.Size(w) {
          return Some(o);
        }
      }
      return None;
    }

    // One probe of GC_objlink_get.
    method ProbeFor(page: nat, addr: nat) returns (found: Option<ObjLink>)
      requires Valid() && addr < w.Modulus()
      ensures found.Some? ==> found.value in Table() && found.value.Covers(w, addr)
      ensures found.None? ==> forall o :: o in Table() && Hash(log2Size, o.obj) == Hash(log2Size, page) ==> !o.Covers(w, addr)
    {
      hide Hash, Tracked, Sound, Blank, Ranged;
      var b := Hash(log2Size, page);
      var i := Probe(b, addr);
      ProbeFinds(b, i, addr);
      ChainSound(b);
      if At(b, i).Size(w) <= addr - At(b, i).obj {
        forall o | o in Table() && Hash(log2Size, o.obj) == b ensures !o.Covers(w, addr) {
          InMembers(hroots, log2Size, o);
        }
        return None;
      }
      return Some(At(b, i));
    }

    // GC_objlink_get, whose second probe is 255 bytes back.
    method Get(addr: nat) returns (found: Option<ObjLink>)
      requires Valid() && 0 < addr < w.Modulus()
      ensures found.Some? ==> found.value in Table() && found.value.Covers(w, addr)
      ensures found.None? ==> forall o :: o in Table() && addr - o.obj < PAGE ==> !o.Covers(w, addr)
    {
      hide Hash, Valid, Table;
      found := ProbeFor(addr, addr);
      if found.None? {
        found := ProbeFor(Sub(w, addr, PAGE - 1), addr);
        if found.None? {
          forall o | o in Table() && addr - o.obj < PAGE ensures !o.Covers(w, addr) {
            if o.Covers(w, addr) {
              NearPage(log2Size, addr, o.obj);
            }
          }
        }
      }
    }

    // The objects GC_base can find.
    ghost function Live(): set<ObjLink>
      reads this`hroots, this`followList, this`markedList
    {
      Table() + (set o | o in followList) + (set o | o in markedList)
    }

    // GC_objlink_get, then GC_objlink_refill_find.  Only an object that is in
    // the table already and contains addr a page or more behind its base can be
    // missed.
    method Lookup(addr: nat) returns (found: Option<ObjLink>)
      requires Valid() && 0 < addr < w.Modulus()
      modifies this`hroots, this`count, this`minObjAddr, this`maxObjAddr, this`markedList, this`followList
      ensures Valid() && Tracked() == old(Tracked()) && LiveBytes() == old(LiveBytes()) && Live() == old(Live())
      ensures found.Some? ==> found.value in Live() && found.value.Covers(w, addr)
      ensures found.None? ==> forall o :: o in Live() && o.Covers(w, addr) ==> addr - o.obj >= PAGE && o in old(Table())
    {
      hide Valid, Tracked, LiveBytes, Table;
      found := Get(addr);
      if found.None? {
        found := RefillFind(addr);
      }
    }

    // GC_base: the base of the object that contains addr, or 0.
    method Base(addr: nat) returns (base: nat)
      requires Valid() && addr < w.Modulus()
      modifies this`hroots, this`count, this`minObjAddr, this`maxObjAddr, this`markedList, this`followList
      ensures Valid() && Tracked() == old(Tracked()) && LiveBytes() == old(LiveBytes()) && Live() == old(Live())
      ensures base != 0 ==> exists o :: o in Live() && o.obj == base && o.Covers(w, addr)
      ensures base == 0 ==> forall o :: o in Live() && o.Covers(w, addr) ==> addr - o.obj >= PAGE && o in old(Table())
      ensures forall o :: o in Live() && o.Covers(w, addr) && addr - o.obj < PAGE ==> base == o.obj
    {
      hide Valid, Tracked, LiveBytes, Table, Live;
      base := 0;
      LiveSound();
      if addr != 0 {
        var found := Lookup(addr);
        if found.Some? {
          base := found.value.obj;
        }
      }
    }

    lemma LiveTracked(o: ObjLink)
      requires Valid() && o in Live()
      ensures o in Tracked() && o.Ok(w)
    {
      if o in Table() {
        TrackedTable(o);
      }
    }

    lemma LiveNotPending(o: ObjLink)
      requires Valid() && o in Live()
      ensures o !in freeList
    {
      hide Placed, Ranged, Blank;
      LiveTracked(o);
      LiveIsRest(Flatten(hroots), followList, markedList, freeList, o);
      assert multiset(freeList)[o] == 0;
    }

    lemma LiveSound()
      requires Valid()
      ensures forall o :: o in Live() ==> o.Ok(w)
      ensures forall o, p, addr: nat :: o in Live() && p in Live() && o.Covers(w, addr) && p.Covers(w, addr) ==> o == p
    {
      hide Tracked, Live;
      forall o | o in Live() ensures o in Tracked() && o.Ok(w) {
        LiveTracked(o);
      }
    }

    // GC_objlink_add: the first unlinked objlink becomes that of a new object.
    method Add(obj: nat, size: nat, atomic: bool) returns (ghost o: ObjLink)
      requires Valid() && unlinkedList != [] && 0 < size < w.Tag()
      requires ObjLink(unlinkedList[0], obj, Tagged(w, size, atomic)).Ok(w)
      requires forall p :: p in Tracked() ==> Apart(w, ObjLink(unlinkedList[0], obj, Tagged(w, size, atomic)), p)
      modifies this`hroots, this`count, this`minObjAddr, this`maxObjAddr, this`unlinkedList
      ensures Valid() && Anchored()
      ensures o == ObjLink(old(unlinkedList[0]), obj, Tagged(w, size, atomic)) && o.Size(w) == size && o.Atomic(w) == atomic
      ensures unlinkedList == old(unlinkedList[1..])
      ensures Tracked() == old(Tracked()) + multiset{o} && Table() == old(Table()) + {o}
      ensures LiveBytes() == old(LiveBytes()) + size
      ensures minObjAddr == if old(minObjAddr) >= obj then obj else old(minObjAddr)
      ensures maxObjAddr == if obj + PAGE > old(maxObjAddr) then obj + PAGE else old(maxObjAddr)
    {
      hide Placed, Sound, Ranged, Blank, Flatten, Bytes, Table, AllLinks, Anchored;
      var new_ := ObjLink(unlinkedList[0], obj, Tagged(w, size, atomic));
      o := new_;
      forall p | p in Table() ensures p.obj != obj {
        TrackedTable(p);
      }
      SoundAdd(w, Tracked(), unlinkedList, o);
      unlinkedList := unlinkedList[1..];
      Enter(new_);
      AddedLinks(old(Flatten(hroots)), Flatten(hroots), followList, markedList, freeList, o);
    }

    // One object of GC_objlink_free_pending: its objlink becomes unlinked.
    method FreeHead() returns (o: ObjLink)
      requires Valid() && freeList != []
      modifies this`freeList, this`unlinkedList
      ensures Valid() && o == old(freeList[0]) && freeList == old(freeList[1..])
      ensures unlinkedList == [o.at] + old(unlinkedList)
      ensures Tracked() + multiset{o} == old(Tracked())
    {
      hide Placed, Sound, Ranged, Blank, Flatten, Bytes, Table, AllLinks;
      o := freeList[0];
      freeList := freeList[1..];
      unlinkedList := [o.at] + unlinkedList;
      FreedLinks(Flatten(hroots), followList, markedList, old(freeList), freeList, o);
      SoundFree(w, old(Tracked()), Tracked(), old(unlinkedList), o);
    }

    // The walk along one chain.
    static method SumChain(chain: seq<ObjLink>) returns (sum: nat, n: nat)
      ensures n == |chain| && sum == TaggedSum(chain)
    {
      sum, n := 0, 0;
      while n < |chain|
        invariant n <= |chain| && sum == TaggedSum(chain[..n])
      {
        assert chain[..n + 1] == chain[..n] + [chain[n]];
        TaggedSumConcat(chain[..n], [chain[n]]);
        sum := sum + chain[n].tagged;
        n := n + 1;
      }
      assert chain[..n] == chain;
    }

    // One bucket of GC_objlink_remove_all: its chain goes in front of the free
    // list.
    method DropChain(b: nat) returns (sum: nat, n: nat)
      requires Intact() && b < |hroots|
      modifies this`hroots, this`freeList
      ensures Intact() && Tracked() == old(Tracked())
      ensures hroots == old(hroots)[b := []] && freeList == old(hroots[b]) + old(freeList)
      ensures n == old(|hroots[b]|) && sum == TaggedSum(old(hroots[b]))
      ensures |Flatten(hroots)| + n == |Flatten(old(hroots))|
      ensures Bytes(w, Flatten(hroots)) + Bytes(w, old(hroots[b])) == Bytes(w, Flatten(old(hroots)))
      ensures forall o :: o in Table() <==> o in old(Table()) && o !in old(hroots[b])
      ensures forall o :: o in old(hroots[b]) ==> o in old(Table()) && o.tagged < w.Modulus()
    {
      hide Sound, Blank, Flatten, Bytes, AllLinks, Placed, Members, Hash;
      var chain := hroots[b];
      DroppedMembers(hroots, log2Size, b);
      BucketSound(b);
      sum, n := SumChain(chain);
      freeList := chain + freeList;
      hroots := hroots[b := []];
      FlattenUpdate(old(hroots), b, []);
      BytesUpdate(w, old(hroots), b, []);
      assert Bytes(w, []) == 0 by { NoBytes(w); }
      DroppedLinks(Flatten(old(hroots)), Flatten(hroots), chain, followList, markedList, old(freeList));
    }

    lemma BucketSound(b: nat)
      requires Intact() && b < |hroots|
      ensures forall o :: o in hroots[b] ==> o in Table() && o.tagged < w.Modulus()
    {
      hide Flatten, Hash;
      forall o | o in hroots[b] ensures o in Table() && o.tagged < w.Modulus() {
        assert InBucket(hroots[b], b, log2Size);
        InMembers(hroots, log2Size, o);
        assert o in Tracked();
      }
    }

    // GC_objlink_remove_all: everything left in the table goes to the free
    // list.  The sizes are added up with their tags, the sum is a word, and it
    // is masked once.
    method RemoveAll() returns (n: nat, removed: nat)
      requires Valid()
      modifies this`hroots, this`freeList, this`count, this`minObjAddr, this`maxObjAddr
      ensures Valid() && Tracked() == old(Tracked())
      ensures Table() == {} && count == 0 && n == old(count) && |hroots| == old(|hroots|)
      ensures minObjAddr == w.Modulus() - 1 && maxObjAddr == PAGE
      ensures forall o :: o in freeList <==> o in old(freeList) || o in old(Table())
      ensures Bytes(w, freeList) == old(Bytes(w, freeList)) + old(Bytes(w, Flatten(hroots)))
      ensures Flatten(hroots) == [] && removed == old(Bytes(w, Flatten(hroots))) % w.Tag()
    {
      hide Sound, Blank, Bytes, AllLinks, Hash, Placed, InBucket, Tracked, Flatten, TaggedSum, Intact, Table;
      n := 0;
      var sum := 0;
      var b := 0;
      ghost var gone: seq<ObjLink> := [];
      NoBytes(w);
      while b < |hroots|
        invariant b <= |hroots| == old(|hroots|) && Intact() && Tracked() == old(Tracked())
        invariant forall k :: 0 <= k < b ==> hroots[k] == []
        invariant freeList == gone + old(freeList) && n + |Flatten(hroots)| == old(count)
        invariant Bytes(w, Flatten(hroots)) + Bytes(w, gone) == old(Bytes(w, Flatten(hroots)))
        invariant sum == TaggedSum(gone) && forall o :: o in gone ==> o.tagged < w.Modulus()
        invariant forall o :: o in gone || o in Table() <==> o in old(Table())
      {
        ghost var chain := hroots[b];
        var more, len := DropChain(b);
        TaggedSumConcat(chain, gone);
        BytesConcat(w, chain, gone);
        assert chain + (gone + old(freeList)) == (chain + gone) + old(freeList);
        sum := sum + more;
        n := n + len;
        gone := chain + gone;
        b := b + 1;
      }
      MaskAfterSum(w, gone);
      BytesConcat(w, gone, old(freeList));
      removed := sum % w.Modulus() % w.Tag();
      NoneLeft();
      label Emptied:
      minObjAddr, maxObjAddr := w.Modulus() - 1, PAGE;
      count := 0;
      ResetBounds@Emptied();
    }

    lemma NoneLeft()
      requires forall k :: 0 <= k < |hroots| ==> hroots[k] == []
      ensures Flatten(hroots) == [] && Table() == {} && Bytes(w, Flatten(hroots)) == 0
    {
      FlattenEmpty(hroots);
    }

    twostate lemma ResetBounds()
      requires old(Intact()) && Table() == {}
      requires unchanged(this`hroots, this`followList, this`markedList, this`freeList, this`unlinkedList, this`log2Size)
      requires minObjAddr == w.Modulus() - 1 && maxObjAddr == PAGE
      ensures Intact()
    {
      hide Sound, Blank, Placed, AllLinks, Members;
    }

    // A table twice the size takes the place of the empty one.
    method Grow()
      requires Valid() && count == 0
      modifies this`hroots, this`log2Size
      ensures Valid() && Tracked() == old(Tracked()) && LiveBytes() == old(LiveBytes())
      ensures Table() == {} && log2Size == old(log2Size) + 1 && Flatten(hroots) == []
    {
      hide Sound, Blank, AllLinks, Placed, Members, Hash, Flatten;
      assert Flatten(hroots) == [];
      hroots := seq(Pow2(log2Size + 1), _ => []);
      log2Size := log2Size + 1;
      EmptyBuckets(hroots, log2Size);
    }

    // The growth of the table while collection is switched off: nothing is
    // garbage, so the whole table waits on the marked list for its refill.  The
    // free list carries it there.
    method GrowKeepingAll()
      requires Valid() && freeList == []
      modifies this`hroots, this`log2Size, this`freeList, this`markedList, this`count, this`minObjAddr, this`maxObjAddr
      ensures Valid() && Tracked() == old(Tracked()) && LiveBytes() == old(LiveBytes()) && Live() == old(Live())
      ensures Table() == {} && freeList == [] && log2Size == old(log2Size) + 1
    {
      hide Sound, Blank, AllLinks, Placed, Members, Hash, Flatten, Bytes;
      SwapLists(Flatten(hroots), followList, markedList);
      NoBytes(w);
      freeList, markedList := markedList, [];
      var _, _ := RemoveAll();
      SwapLists(Flatten(hroots), followList, freeList);
      markedList, freeList := freeList, [];
      Grow();
    }

    // GC_alloc_objlinks: a block of new objlinks.
    method AddBlanks(fresh_: seq<nat>)
      requires Valid() && Blank(Tracked(), fresh_) && forall a :: a in fresh_ ==> a !in unlinkedList
      modifies this`unlinkedList
      ensures Valid() && unlinkedList == fresh_ + old(unlinkedList)
    {
      hide Sound, AllLinks, Placed, Tracked, Ranged, Blank;
      BlankConcat(Tracked(), fresh_, unlinkedList);
      unlinkedList := fresh_ + unlinkedList;
    }

    // Objects change between table, follow and marked list only.
    twostate lemma LiveKept()
      requires Tracked() == old(Tracked()) && freeList == old(freeList)
      ensures Live() == old(Live())
    {
      forall o ensures o in Live() <==> o in old(Live()) {
        LiveIsRest(Flatten(hroots), followList, markedList, freeList, o);
        LiveIsRest(Flatten(old(hroots)), old(followList), old(markedList), old(freeList), o);
      }
    }

    lemma CountTracked()
      requires Valid()
      ensures count <= |Tracked()|
    {
      hide Placed, Sound, Blank, Ranged;
      assert |multiset(Flatten(hroots))| == |Flatten(hroots)|;
    }

    // The table is empty when its count says so.
    lemma CountIsTable()
      requires Valid()
      ensures count == 0 <==> Table() == {}
      ensures count == 0 ==> Flatten(hroots) == []
    {
      hide AllLinks, Placed, Sound, Blank;
      if count != 0 {
        assert Flatten(hroots)[0] in Table();
      }
    }

    // Objects in the table anchor the bounds.
    lemma TableBounds(o: ObjLink)
      requires Valid() && o in Table()
      ensures Anchored() && TheView().Bounded(o)
    {
    }

    // The look-up of a weak link's object by its base: is it still in the table?
    method HasBase(o: ObjLink) returns (found: bool)
      requires Valid() && o in Live()
      ensures found == (o in Table())
    {
      hide Tracked, Sound, Blank, Ranged, Placed, Hash, Live;
      LiveSound();
      var b, i;
      found, b, i := Locate(o.obj, false);
      if found {
        BucketMember(b, i);
        TableLive(hroots[b][i]);
        assert o.Covers(w, o.obj) && hroots[b][i].Covers(w, o.obj);
      }
    }

    lemma TableLive(o: ObjLink)
      requires o in Table()
      ensures o in Live()
    {
    }

    lemma MarkingNow(g: Graph, t: set<ObjLink>, r: set<ObjLink>)
      requires Marking(g, t, r)
      ensures Table() <= t
    {
    }

    lemma NothingTracked()
      requires Flatten(hroots) == [] && followList == [] && markedList == []
      ensures LiveBytes() == 0 && Live() == {}
    {
    }

    // Memory [p, p + size) overlaps neither an object nor an objlink in use.
    predicate Avoids(p: nat, size: nat)
      reads this`hroots, this`followList, this`markedList, this`freeList, this`unlinkedList
    {
      && (forall o :: o in Flatten(hroots) + followList + markedList + freeList ==>
           && (p + size <= o.obj || o.obj + o.Size(w) <= p)
           && (p + size <= o.at || o.at + 3 * w.Bytes() <= p))
      && (forall a :: a in unlinkedList ==> p + size <= a || a + 3 * w.Bytes() <= p)
    }

    lemma AvoidsTracked(p: nat, size: nat)
      requires Avoids(p, size)
      ensures forall o :: o in Tracked() ==>
        (p + size <= o.obj || o.obj + o.Size(w) <= p) && (p + size <= o.at || o.at + 3 * w.Bytes() <= p)
    {
      forall o | o in Tracked()
        ensures (p + size <= o.obj || o.obj + o.Size(w) <= p) && (p + size <= o.at || o.at + 3 * w.Bytes() <= p)
      {
        assert o in Flatten(hroots) + followList + markedList + freeList;
      }
    }

    lemma FreeOk()
      requires Valid()
      ensures forall o :: o in freeList ==> o.Ok(w)
    {
      assert forall o :: o in freeList ==> o in Tracked();
    }

    lemma ListsApart()
      requires Valid()
      ensures forall o :: o in followList || o in markedList ==> o !in Table()
    {
      hide Valid, Table, ObjLink.Ok;
      forall o | o in followList || o in markedList ensures o !in Table() {
        ListedApart(o);
      }
    }

    // What a sweep leaves: the objects on the two lists, and their bytes.
    twostate lemma SweptLive()
      requires forall o :: o in followList || o in markedList ==> o !in old(Table())
      requires Table() == {} && Flatten(hroots) == [] && unchanged(this`followList, this`markedList)
      ensures Live() == old(Live()) - old(Table())
      ensures LiveBytes() + Bytes(w, Flatten(old(hroots))) == old(LiveBytes())
    {
      hide Table, Flatten, Bytes;
      NoBytes(w);
    }

    lemma TableBytesWithin()
      ensures Bytes(w, Flatten(hroots)) <= LiveBytes()
    {
    }

    lemma LiveAreTracked()
      requires Valid()
      ensures forall o :: o in Live() ==> o in Tracked()
    {
      hide Tracked, Live, ObjLink.Ok;
      forall o | o in Live() ensures o in Tracked() {
        LiveTracked(o);
      }
    }

    twostate lemma LiveAdded(o: ObjLink)
      requires Table() == old(Table()) + {o} && unchanged(this`followList, this`markedList)
      ensures Live() == old(Live()) + {o}
    {
      hide Table;
    }

    lemma BlankPositive()
      requires Valid() && unlinkedList != []
      ensures 0 < unlinkedList[0]
    {
      hide Tracked, Sound, Placed, Ranged;
      assert unlinkedList[0] in unlinkedList;
    }
  }
}
