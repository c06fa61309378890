/**
  What it means, for the scanner of tinygc.c, that a word points at an object,
  and the graph that scanning objects for such words gives.
*/
module Pointers {
  import opened Words
  import opened ObjectLinks

  // Memory as the collector reads it: word address to word.
  type Memory = nat -> nat

  function Load(w: Width, mem: Memory, addr: nat): (word: nat)
    ensures word < w.Modulus()
  {
    mem(addr) % w.Modulus()
  }

  // GC_scan_region's and GC_objlink_mark's idea of "addr points at o".
  predicate Hits(w: Width, log2: nat, interior: bool, addr: nat, o: ObjLink) {
    if interior then
      && o.Covers(w, addr)
      && (Hash(log2, o.obj) == Hash(log2, addr)
          || (addr % PAGE != PAGE - 1 && Hash(log2, o.obj) == Hash(log2, Sub(w, addr, PAGE))))
    else
      o.obj == addr
  }

  // What a scan needs to know of the table; none of it changes while marking.
  datatype View = View(w: Width, log2: nat, min: nat, max: nat) {
    // The range test *region - min_obj_addr >= ignore_off.
    predicate InRange(word: nat) {
      Sub(w, word, min) < Sub(w, max, min)
    }

    // The first page of o lies within the bounds of the range test.
    predicate Bounded(o: ObjLink) {
      0 < min <= o.obj && o.obj + PAGE <= max < w.Modulus()
    }

    predicate PointsTo(interior: bool, word: nat, o: ObjLink) {
      InRange(word) && (interior || word % w.Bytes() == 0) && Hits(w, log2, interior, word, o)
    }

    // Some word of [begin, end) points at o.
    predicate Pointed(mem: Memory, interior: bool, begin: nat, end: nat, o: ObjLink)
      decreases if begin < end then end - begin else 0
    {
      begin < end
      && (PointsTo(interior, Load(w, mem, begin), o) || Pointed(mem, interior, begin + w.Bytes(), end, o))
    }

    // The first word and the rest.
    lemma PointedStep(mem: Memory, interior: bool, begin: nat, end: nat)
      ensures forall o {:trigger Pointed(mem, interior, begin, end, o)} :: Pointed(mem, interior, begin, end, o) <==>
        begin < end && (PointsTo(interior, Load(w, mem, begin), o) || Pointed(mem, interior, begin + w.Bytes(), end, o))
    {
    }
  }

  // Disjoint objects: a word points at one of them at most.
  lemma UniqueHit(w: Width, log2: nat, t: multiset<ObjLink>, interior: bool, addr: nat, o: ObjLink, p: ObjLink)
    requires Sound(w, t) && o in t && p in t
    requires Hits(w, log2, interior, addr, o) && Hits(w, log2, interior, addr, p)
    ensures o == p
  {
  }

  // An address less than a page into an object is always found.
  lemma NearHits(w: Width, log2: nat, addr: nat, o: ObjLink)
    requires addr < w.Modulus() && o.Covers(w, addr) && addr - o.obj < PAGE
    ensures Hits(w, log2, true, addr, o)
  {
    if o.obj / PAGE == addr / PAGE {
      SamePageSameHash(log2, o.obj, addr);
    } else {
      assert o.obj / PAGE == (addr - PAGE) / PAGE;
      SamePageSameHash(log2, o.obj, addr - PAGE);
    }
  }

  // A base pointer points at its object, whatever the scanning mode.
  lemma BaseHits(w: Width, log2: nat, interior: bool, o: ObjLink)
    requires o.Ok(w)
    ensures Hits(w, log2, interior, o.obj, o)
  {
    NearHits(w, log2, o.obj, o);
  }

  // The objects as nodes; an edge is a word inside the scanned part.
  datatype Graph = Graph(view: View, mem: Memory, interior: bool) {
    predicate Edge(p: ObjLink, o: ObjLink) {
      !p.Atomic(view.w) && view.Pointed(mem, interior, p.obj, p.ScanEnd(view.w), o)
    }

    // Edges from r into t end in r.
    ghost predicate Closed(t: set<ObjLink>, r: set<ObjLink>) {
      forall p, o :: p in r && o in t && Edge(p, o) ==> o in r
    }

    // path leads from one of the seeds to o inside t.
    ghost predicate Leads(t: set<ObjLink>, seeds: set<ObjLink>, path: seq<ObjLink>, o: ObjLink)
      decreases |path|
    {
      path != [] && path[|path| - 1] == o && o in t
      && if |path| == 1 then o in seeds else
           var before := path[|path| - 2];
           Edge(before, o) && Leads(t, seeds, path[..|path| - 1], before)
    }

    // The objects of t a path from the seeds leads to.
    ghost function Reach(t: set<ObjLink>, seeds: set<ObjLink>): set<ObjLink> {
      set o | o in t && exists path :: Leads(t, seeds, path, o)
    }

    lemma ReachClosed(t: set<ObjLink>, seeds: set<ObjLink>)
      ensures Closed(t, Reach(t, seeds))
      ensures seeds * t <= Reach(t, seeds) <= t
    {
      forall p, o | p in Reach(t, seeds) && o in t && Edge(p, o) ensures o in Reach(t, seeds) {
        var path :| Leads(t, seeds, path, p);
        assert (path + [o])[..|path|] == path;
        assert Leads(t, seeds, path + [o], o);
      }
      forall o | o in seeds && o in t ensures o in Reach(t, seeds) {
        assert Leads(t, seeds, [o], o);
      }
    }

    // It is the least such set.
    lemma ReachLeast(t: set<ObjLink>, seeds: set<ObjLink>, r: set<ObjLink>)
      requires Closed(t, r) && seeds * t <= r
      ensures Reach(t, seeds) <= r
    {
      forall o | o in Reach(t, seeds) ensures o in r {
        var path :| Leads(t, seeds, path, o);
        LeadsInside(t, seeds, r, path, o);
      }
    }

    lemma ReachNone(t: set<ObjLink>)
      ensures Reach(t, {}) == {}
    {
      ReachLeast(t, {}, {});
    }

    lemma {:induction false} LeadsInside(t: set<ObjLink>, seeds: set<ObjLink>, r: set<ObjLink>, path: seq<ObjLink>, o: ObjLink)
      requires Closed(t, r) && seeds * t <= r && Leads(t, seeds, path, o)
      ensures o in r
      decreases |path|
    {
      if |path| > 1 {
        LeadsInside(t, seeds, r, path[..|path| - 1], path[|path| - 2]);
      }
    }

    // word is a pointer the collector promises to see: to the object's base
    // or, with interior pointers, less than a page into it.
    predicate Proper(word: nat, o: ObjLink) {
      word == o.obj || (interior && o.Covers(view.w, word) && word - o.obj < PAGE)
    }

    // Such a word at step k of a region makes the region point at o.
    lemma {:induction false} ProperIsPointed(begin: nat, end: nat, k: nat, o: ObjLink)
      requires o.Ok(view.w) && view.Bounded(o) && begin + k * view.w.Bytes() < end
      requires Proper(Load(view.w, mem, begin + k * view.w.Bytes()), o)
      ensures view.Pointed(mem, interior, begin, end, o)
      decreases k
    {
      if k == 0 {
        ProperPointsTo(Load(view.w, mem, begin), o);
      } else {
        assert begin + k * view.w.Bytes() == (begin + view.w.Bytes()) + (k - 1) * view.w.Bytes();
        ProperIsPointed(begin + view.w.Bytes(), end, k - 1, o);
      }
    }

    lemma ProperPointsTo(word: nat, o: ObjLink)
      requires o.Ok(view.w) && view.Bounded(o) && word < view.w.Modulus() && Proper(word, o)
      ensures view.PointsTo(interior, word, o)
    {
      if interior {
        NearHits(view.w, view.log2, word, o);
      }
    }

    // Hence following such pointers never leaves what marking reaches: an
    // object that a chain of them leads to is never taken for garbage.
    ghost predicate ProperEdge(p: ObjLink, o: ObjLink) {
      !p.Atomic(view.w) &&
      exists k: nat :: p.obj + k * view.w.Bytes() < p.ScanEnd(view.w) && Proper(Load(view.w, mem, p.obj + k * view.w.Bytes()), o)
    }

    lemma ProperEdgeIsEdge(p: ObjLink, o: ObjLink)
      requires o.Ok(view.w) && view.Bounded(o) && ProperEdge(p, o)
      ensures Edge(p, o)
    {
      var k: nat :| p.obj + k * view.w.Bytes() < p.ScanEnd(view.w) && Proper(Load(view.w, mem, p.obj + k * view.w.Bytes()), o);
      ProperIsPointed(p.obj, p.ScanEnd(view.w), k, o);
    }

    lemma {:induction false} ProperPathsReach(t: set<ObjLink>, seeds: set<ObjLink>, path: seq<ObjLink>)
      requires forall o :: o in t ==> o.Ok(view.w) && view.Bounded(o)
      requires path != [] && (forall o :: o in path ==> o in t) && path[0] in seeds
      requires forall i :: 0 < i < |path| ==> ProperEdge(path[i - 1], path[i])
      ensures path[|path| - 1] in Reach(t, seeds)
      decreases |path|
    {
      ReachClosed(t, seeds);
      if |path| > 1 {
        var front := path[..|path| - 1];
        forall i | 0 < i < |front| ensures ProperEdge(front[i - 1], front[i]) {
          assert ProperEdge(path[i - 1], path[i]);
        }
        ProperPathsReach(t, seeds, front);
        ProperEdgeIsEdge(path[|path| - 2], path[|path| - 1]);
      }
    }
  }

  // Words that are cleared no longer point anywhere.
  lemma {:induction false} ClearedPoints(v: View, mem: Memory, mem': Memory, interior: bool, begin: nat, end: nat, o: ObjLink)
    requires !v.InRange(0) && forall a: nat :: mem'(a) == mem(a) || mem'(a) == 0
    requires v.Pointed(mem', interior, begin, end, o)
    ensures v.Pointed(mem, interior, begin, end, o)
    decreases end - begin
  {
    assert Load(v.w, mem', begin) == Load(v.w, mem, begin) || Load(v.w, mem', begin) == 0;
    if !v.PointsTo(interior, Load(v.w, mem', begin), o) {
      ClearedPoints(v, mem, mem', interior, begin + v.w.Bytes(), end, o);
    }
  }

  // So what was closed under pointing stays closed.
  lemma ClearedClosed(g: Graph, g': Graph, t: set<ObjLink>, r: set<ObjLink>)
    requires g.Closed(t, r) && g'.view == g.view && g'.interior == g.interior
    requires !g.view.InRange(0) && forall a: nat :: g'.mem(a) == g.mem(a) || g'.mem(a) == 0
    ensures g'.Closed(t, r)
  {
    forall p, o | p in r && o in t && g'.Edge(p, o) ensures o in r {
      ClearedPoints(g.view, g.mem, g'.mem, g.interior, p.obj, p.ScanEnd(g.view.w), o);
    }
  }
}
