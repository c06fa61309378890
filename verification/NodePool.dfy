/**
  The list nodes of gc.c: a stack of preallocated nodes shared by the seven
  pools in which the object-based collector books its objects.
*/
module NodePool {
  import opened Options
  import opened Chains

  // Addresses of list nodes and of objects.
  type Node = nat
  type Address = nat

  const NULL: Address := 0
  // Written over a slot whose node is in use.
  const POISON: Node := 0xDEAD0001

  // The gc field of an object.
  const FREE_OBJ := 0
  const GEN_1_OBJ := 1
  const PERMANENT_OBJ := 3

  // The pools.
  const PAIRS := 0
  const VECTORS := 1
  const LISTS := 2
  const CLOSURES := 3
  const BYTEVECTORS := 4
  const MUT_BYTEVECTORS := 5
  const OBJECTS := 6
  const POOLS := 7

  type Pool = p: nat | p < POOLS

  // The nodes of s that are not among those to go, in order.
  function Kept(s: seq<Node>, gone: set<Node>): (r: seq<Node>) {
    if s == [] then
      []
    else
      var last := s[|s| - 1];
      Kept(s[..|s| - 1], gone) + if last in gone then [] else [last]
  }

  lemma {:induction false} KeptAll(s: seq<Node>, gone: set<Node>)
    requires forall n :: n in s ==> n in gone
    ensures Kept(s, gone) == []
  {
    if s != [] {
      assert forall n :: n in s[..|s| - 1] ==> n in s;
      KeptAll(s[..|s| - 1], gone);
    }
  }

  // A sweep that has reached place k of a pool.
  function Swept(s: seq<Node>, gone: set<Node>, k: nat): seq<Node>
    requires k <= |s|
  {
    Kept(s[..k], gone) + s[k..]
  }

  lemma SweptStep(s: seq<Node>, gone: set<Node>, k: nat)
    requires k < |s|
    ensures var at, i := Swept(s, gone, k), |Kept(s[..k], gone)|;
      && i < |at| && at[i] == s[k]
      && Swept(s, gone, k + 1) == (if s[k] in gone then at[..i] + at[i + 1..] else at)
      && |Kept(s[..k + 1], gone)| == (if s[k] in gone then i else i + 1)
  {
    assert s[..k + 1][..k] == s[..k];
    var kept := Kept(s[..k], gone);
    var at := kept + s[k..];
    assert Kept(s[..k + 1], gone) == kept + if s[k] in gone then [] else [s[k]];
    assert s[k..] == [s[k]] + s[k + 1..];
  }

  lemma SweptEnds(s: seq<Node>, gone: set<Node>)
    ensures Swept(s, gone, 0) == s && Swept(s, gone, |s|) == Kept(s, gone)
  {
    assert s[..|s|] == s;
  }

  // What becomes of the nodes of a pool: kept or gone, each once.
  lemma {:induction false} KeptCounts(s: seq<Node>, gone: set<Node>, n: Node)
    ensures multiset(Kept(s, gone))[n] == if n in gone then 0 else multiset(s)[n]
  {
    if s != [] {
      assert s == s[..|s| - 1] + [s[|s| - 1]];
      KeptCounts(s[..|s| - 1], gone, n);
    }
  }

  // The nodes in all pools.
  ghost function Flat(pools: seq<seq<Node>>): (m: multiset<Node>)
    ensures |m| == |Flatten<Node>(pools)|
  {
    multiset(Flatten<Node>(pools))
  }

  lemma FlatUpdate(pools: seq<seq<Node>>, p: nat, c: seq<Node>)
    requires p < |pools|
    ensures Flat(pools[p := c]) + multiset(pools[p]) == Flat(pools) + multiset(c)
  {
    FlattenUpdate<Node>(pools, p, c);
  }

  // The free slots, the pools and what is out hold every node once.
  ghost predicate Split(free: seq<Node>, pools: seq<seq<Node>>, out: multiset<Node>, nodes: set<Node>) {
    multiset(free) + Flat(pools) + out == multiset(nodes)
  }

  lemma SplitCounts(free: seq<Node>, pools: seq<seq<Node>>, out: multiset<Node>, nodes: set<Node>, n: Node)
    requires Split(free, pools, out, nodes)
    ensures multiset(free)[n] + Flat(pools)[n] + out[n] == if n in nodes then 1 else 0
    ensures |free| + |Flat(pools)| + |out| == |nodes|
  {
    hide Flat;
    var flat := Flat(pools);
    var sum := multiset(free) + flat + out;
    assert sum[n] == multiset(free)[n] + flat[n] + out[n];
    assert multiset(nodes)[n] == if n in nodes then 1 else 0;
    assert |sum| == |multiset(nodes)| == |nodes|;
  }

  lemma InPools(pools: seq<seq<Node>>, n: Node)
    requires Flat(pools)[n] == 0
    ensures n !in Flat(pools) && forall p :: 0 <= p < |pools| ==> n !in pools[p]
  {
    assert n !in Flat(pools);
    InFlatten<Node>(pools, n);
  }

  // A node that was in one place is in none once it is taken out.
  lemma TakenOut(pools: seq<seq<Node>>, p: nat, i: nat)
    requires p < |pools| && i < |pools[p]| && Flat(pools)[pools[p][i]] <= 1
    ensures var after := pools[p := pools[p][..i] + pools[p][i + 1..]];
      forall q :: 0 <= q < |after| ==> pools[p][i] !in after[q]
  {
    hide Flat;
    var n, c := pools[p][i], pools[p][..i] + pools[p][i + 1..];
    FlatUpdate(pools, p, c);
    MultisetSplit(pools[p], i);
    var a, b := Flat(pools), Flat(pools[p := c]);
    var old_, new_ := multiset(pools[p]), multiset(c);
    assert (b + old_)[n] == b[n] + old_[n] && (a + new_)[n] == a[n] + new_[n];
    assert old_[n] == new_[n] + 1;
    InPools(pools[p := c], n);
  }

  // A node from the slots comes out, and goes back.
  lemma SplitSlot(free: seq<Node>, pools: seq<seq<Node>>, nodes: set<Node>, n: Node)
    ensures Split([n] + free, pools, multiset{}, nodes) <==> Split(free, pools, multiset{n}, nodes)
  {
    hide Flat;
    assert multiset([n] + free) == multiset{n} + multiset(free);
    var flat := Flat(pools);
    assert multiset([n] + free) + flat + multiset{} == multiset(free) + flat + multiset{n};
  }

  // So does a node of a pool.
  lemma SplitPool(free: seq<Node>, pools: seq<seq<Node>>, nodes: set<Node>, p: nat, c: seq<Node>, n: Node)
    requires p < |pools| && multiset(pools[p]) == multiset(c) + multiset{n}
    ensures Split(free, pools, multiset{}, nodes) <==> Split(free, pools[p := c], multiset{n}, nodes)
  {
    hide Flat;
    FlatUpdate(pools, p, c);
    var a, b := Flat(pools), Flat(pools[p := c]);
    assert b + multiset{n} == a by {
      forall x
        ensures (b + multiset{n})[x] == a[x]
      {
        assert (b + multiset(pools[p]))[x] == (a + multiset(c))[x];
        assert multiset(pools[p])[x] == (multiset(c) + multiset{n})[x];
      }
    }
    assert multiset(free) + a + multiset{} == multiset(free) + b + multiset{n};
  }

  // What the rest of the program does to the pools, in any order.
  datatype Step =
    | Booking(p: Pool, o: Address)
    | Freeing(p: Pool, o: Address)
    | Releasing(p: Pool, force: bool)
    | Sweeping(force: bool)
    | Allocating(p: Pool)
    | Marking(o: Address, generation: nat)
    | Recycling

  function Collected(generation: nat): nat {
    if generation == PERMANENT_OBJ then PERMANENT_OBJ else FREE_OBJ
  }

  class ObjectListNodes {
    // PRE_OLN is the length of oln.
    const oln: array<Node>
    var index: nat
    var pools: seq<seq<Node>>
    // The obj field of every node and the gc field of every object.
    var obj: map<Node, Address>
    var gc: map<Address, nat>
    // The nodes that were allocated in the beginning.
    ghost const nodes: set<Node>

    // object_list_node_pre_allocate on the blocks os_malloc returned, and the
    // lists of gc_init.
    constructor (blocks: seq<Node>)
      requires forall i, j :: 0 <= i < j < |blocks| ==> blocks[i] != blocks[j]
      ensures Valid() && fresh(oln) && index == 0 && oln.Length == |blocks|
      ensures forall n :: n in nodes <==> n in blocks
    {
      oln := new Node[|blocks|](i requires 0 <= i < |blocks| => blocks[i]);
      index := 0;
      pools := [[], [], [], [], [], [], []];
      obj, gc := map[], map[];
      nodes := set n | n in blocks;
      new;
      assert oln[..] == blocks;
      FlattenEmpty(pools);
      Distinct(blocks, nodes);
    }

    // All free slots and pools together hold every node once, but for those out.
    ghost predicate Balanced(out: multiset<Node>)
      reads this, oln
    {
      && |nodes| == oln.Length && |pools| == POOLS && index <= oln.Length
      && Split(oln[index..], pools, out, nodes)
    }

    // Every node in a pool refers to an object.
    ghost predicate Referring()
      reads this
    {
      forall p, n :: 0 <= p < |pools| && n in pools[p] ==> n in obj && obj[n] in gc
    }

    ghost predicate Valid()
      reads this, oln
    {
      Balanced(multiset{}) && Referring()
    }

    // object_list_node_available
    function Available(): nat
      requires index <= oln.Length
      reads this
    {
      oln.Length - index
    }

    // The index counts the nodes in the pools.
    lemma IndexIsTotal(out: multiset<Node>)
      requires Balanced(out)
      ensures index == |Flat(pools)| + |out|
    {
      SplitCounts(oln[index..], pools, out, nodes, 0);
    }

    // A node has one place only: a free slot or one place in one pool.
    lemma OnePlace(n: Node)
      requires Valid()
      ensures multiset(oln[index..])[n] + Flat(pools)[n] == if n in nodes then 1 else 0
    {
      SplitCounts(oln[index..], pools, multiset{}, nodes, n);
    }

    // A node that is out is a node of the beginning and in no pool.
    lemma Outside(n: Node)
      requires Balanced(multiset{n})
      ensures n in nodes && n !in Flat(pools) && forall p :: 0 <= p < |pools| ==> n !in pools[p]
    {
      hide Flat, Split;
      SplitCounts(oln[index..], pools, multiset{n}, nodes, n);
      assert multiset{n}[n] == 1;
      InPools(pools, n);
    }

    // object_list_node_alloc
    method Alloc() returns (node: Option<Node>)
      requires Valid()
      modifies this`index, oln
      ensures node == None <==> old(index) == oln.Length
      ensures node == None ==> Valid() && index == old(index)
      ensures node.Some? ==> Balanced(multiset{node.value}) && index == old(index) + 1 && Referring()
    {
      if Available() == 0 {
        return None;
      }
      hide Flat, Split;
      ghost var free := oln[index + 1..];
      assert oln[index..] == [oln[index]] + free;
      SplitSlot(free, pools, nodes, oln[index]);
      node := Some(oln[index]);
      oln[index] := POISON;
      index := index + 1;
      assert oln[index..] == free;
    }

    // object_list_node_recycle
    method Recycle(node: Node)
      requires Balanced(multiset{node})
      modifies this`index, oln
      ensures Balanced(multiset{}) && index == old(index) - 1
    {
      hide Flat, Split;
      IndexIsTotal(multiset{node});
      SplitSlot(oln[index..], pools, nodes, node);
      ghost var free := oln[index..];
      index := index - 1;
      oln[index] := node;
      assert oln[index..] == [node] + free;
    }

    // gc_obj_book, and gc_inner_obj_book for one of the other pools.
    method Book(p: Pool, o: Address) returns (node: Option<Node>)
      requires Valid() && o in gc
      modifies this`index, this`pools, this`obj, oln
      ensures Valid() && (node == None <==> old(index) == oln.Length)
      ensures node == None ==> index == old(index) && pools == old(pools) && obj == old(obj)
      ensures node.Some? ==>
        && node.value in nodes && node.value !in old(Flat(pools)) && index == old(index) + 1
        && pools == old(pools)[p := [node.value] + old(pools)[p]] && obj == old(obj)[node.value := o]
    {
      hide Flat, Split;
      node := Alloc();
      if node == None {
        return;
      }
      var n := node.value;
      Outside(n);
      obj := obj[n := o];
      ghost var before := pools;
      pools := pools[p := [n] + pools[p]];
      assert multiset(pools[p]) == multiset(before[p]) + multiset{n};
      assert pools[p := before[p]] == before;
      SplitPool(oln[index..], pools, nodes, p, before[p], n);
    }

    // SLIST_REMOVE of the node at a place of a pool, and its recycling.
    method TakeOut(p: Pool, i: nat)
      requires Valid() && i < |pools[p]|
      modifies this`index, this`pools, oln
      ensures Valid() && index == old(index) - 1
      ensures pools == old(pools)[p := old(pools)[p][..i] + old(pools)[p][i + 1..]]
    {
      hide Flat, Split;
      var node := pools[p][i];
      var rest := pools[p][..i] + pools[p][i + 1..];
      MultisetSplit(pools[p], i);
      SplitPool(oln[index..], pools, nodes, p, rest, node);
      pools := pools[p := rest];
      Recycle(node);
    }

    // free_object_from_pool: the first node of the object leaves.
    method FreeFromPool(p: Pool, o: Address) returns (i: nat)
      requires Valid()
      modifies this`index, this`pools, this`obj, oln
      ensures Valid() && i <= |old(pools)[p]|
      ensures forall j :: 0 <= j < i ==> old(obj)[old(pools)[p][j]] != o
      ensures i == |old(pools)[p]| ==> index == old(index) && pools == old(pools) && obj == old(obj)
      ensures i < |old(pools)[p]| ==>
        && old(obj)[old(pools)[p][i]] == o && index == old(index) - 1
        && pools == old(pools)[p := old(pools)[p][..i] + old(pools)[p][i + 1..]]
        && obj == old(obj)[old(pools)[p][i] := NULL]
    {
      hide Flat, Split;
      i := 0;
      while i < |pools[p]| && obj[pools[p][i]] != o
        invariant i <= |pools[p]|
        invariant forall j :: 0 <= j < i ==> obj[pools[p][j]] != o
      {
        i := i + 1;
      }
      if i < |pools[p]| {
        var node := pools[p][i];
        OnePlace(node);
        TakenOut(pools, p, i);
        TakeOut(p, i);
        obj := obj[node := NULL];
      }
    }

    // The nodes of a pool that a sweep releases.
    ghost function Dying(p: Pool, force: bool): (gone: set<Node>)
      requires |pools| == POOLS && Referring()
      reads this
    {
      set n | n in pools[p] && (force || gc[obj[n]] == FREE_OBJ)
    }

    // release_all_free_objects
    method ReleaseAllFree(p: Pool, force: bool)
      requires Valid()
      modifies this`index, this`pools, oln
      ensures Valid() && pools == old(pools)[p := Kept(old(pools)[p], old(Dying(p, force)))]
    {
      hide Flat, Split, Kept, Swept;
      ghost var all, gone := pools[p], Dying(p, force);
      var i := 0;
      ghost var k := 0;
      SweptEnds(all, gone);
      KeptAll(all[..0], gone);
      while i < |pools[p]|
        invariant Valid() && k <= |all| && pools == old(pools)[p := Swept(all, gone, k)]
        invariant i == |Kept(all[..k], gone)| && |Swept(all, gone, k)| == i + |all| - k
        decreases |all| - k
      {
        var node := pools[p][i];
        SweptStep(all, gone, k);
        assert node == all[k] && all[k] in all;
        if gc[obj[node]] == FREE_OBJ || force {
          TakeOut(p, i);
        } else {
          i := i + 1;
        }
        k := k + 1;
      }
    }

    // sweep
    method Sweep(force: bool)
      requires Valid()
      modifies this`index, this`pools, oln
      ensures Valid() && forall p :: 0 <= p < POOLS ==> pools[p] == Kept(old(pools)[p], old(Dying(p, force)))
      ensures force ==> index == 0
    {
      hide Flat, Split, Kept;
      var p := 0;
      while p < POOLS
        invariant 0 <= p <= POOLS && Valid()
        invariant forall q :: 0 <= q < p ==> pools[q] == Kept(old(pools)[q], old(Dying(q, force)))
        invariant forall q :: p <= q < POOLS ==> pools[q] == old(pools)[q]
      {
        assert Dying(p, force) == old(Dying(p, force));
        ReleaseAllFree(p, force);
        p := p + 1;
      }
      if force {
        forall q | 0 <= q < POOLS
          ensures pools[q] == []
        {
          KeptAll(old(pools)[q], old(Dying(q, true)));
        }
        EmptyIndex();
      }
    }

    lemma EmptyIndex()
      requires Valid() && forall q :: 0 <= q < POOLS ==> pools[q] == []
      ensures index == 0
    {
      FlattenEmpty<Node>(pools);
      IndexIsTotal(multiset{});
    }

    // The test of object_list_node_clean: it panics unless every node was
    // returned.
    method Clean() returns (ok: bool)
      requires Valid()
      ensures ok <==> Flat(pools) == multiset{}
      ensures ok <==> index == 0
    {
      IndexIsTotal(multiset{});
      ok := index == 0;
    }

    // gc_pool_malloc: the first free object of the pool, now of the first
    // generation.
    method PoolMalloc(p: Pool) returns (o: Option<Address>)
      requires Valid()
      modifies this`gc
      ensures Valid()
      ensures o == None <==> forall i :: 0 <= i < |pools[p]| ==> old(gc)[obj[pools[p][i]]] != FREE_OBJ
      ensures o == None ==> gc == old(gc)
      ensures o.Some? ==> exists i ::
        && 0 <= i < |pools[p]| && obj[pools[p][i]] == o.value && gc == old(gc)[o.value := GEN_1_OBJ]
        && old(gc)[o.value] == FREE_OBJ && forall j :: 0 <= j < i ==> old(gc)[obj[pools[p][j]]] != FREE_OBJ
    {
      hide Flat, Split;
      var i := 0;
      while i < |pools[p]| && gc[obj[pools[p][i]]] != FREE_OBJ
        invariant i <= |pools[p]|
        invariant forall j :: 0 <= j < i ==> gc[obj[pools[p][j]]] != FREE_OBJ
      {
        i := i + 1;
      }
      if i == |pools[p]| {
        return None;
      }
      o := Some(obj[pools[p][i]]);
      gc := gc[o.value := GEN_1_OBJ];
    }

    // A change of the gc field of an object anywhere in the program.
    method SetGeneration(o: Address, generation: nat)
      requires Valid()
      modifies this`gc
      ensures Valid() && gc == old(gc)[o := generation]
    {
      gc := gc[o := generation];
    }

    // One of the first k nodes of the pool is for object o.
    ghost predicate Refers(p: Pool, k: nat, o: Address)
      requires |pools| == POOLS && k <= |pools[p]| && Referring()
      reads this
    {
      exists j :: 0 <= j < k && obj[pools[p][j]] == o
    }

    // simple_collect
    method SimpleCollect(p: Pool)
      requires Valid()
      modifies this`gc
      ensures Valid() && gc.Keys == old(gc).Keys
      ensures forall o :: o in gc ==> gc[o] == (if Refers(p, |pools[p]|, o) then Collected(old(gc)[o]) else old(gc)[o])
    {
      hide Flat, Split;
      var i := 0;
      while i < |pools[p]|
        invariant i <= |pools[p]| && gc.Keys == old(gc).Keys && Valid()
        invariant forall o :: o in gc ==> gc[o] == (if Refers(p, i, o) then Collected(old(gc)[o]) else old(gc)[o])
      {
        var o := obj[pools[p][i]];
        if gc[o] != PERMANENT_OBJ {
          gc := gc[o := FREE_OBJ];
        }
        i := i + 1;
      }
    }

    // Object o has a node in one of the pools of objects of one size.
    ghost predicate Sized(o: Address)
      requires |pools| == POOLS && Referring()
      reads this
    {
      || Refers(OBJECTS, |pools[OBJECTS]|, o) || Refers(LISTS, |pools[LISTS]|, o)
      || Refers(VECTORS, |pools[VECTORS]|, o) || Refers(PAIRS, |pools[PAIRS]|, o)
    }

    // gc_try_to_recycle: the objects in these pools become free, but for the
    // permanent ones, and the closures' nodes go back.
    method TryToRecycle()
      requires Valid()
      modifies this`gc, this`index, this`pools, oln
      ensures Valid() && pools == old(pools)[CLOSURES := []] && gc.Keys == old(gc).Keys
      ensures forall o :: o in gc ==> gc[o] == (if old(Sized(o)) then Collected(old(gc)[o]) else old(gc)[o])
    {
      hide Flat, Split, Kept;
      SimpleCollect(OBJECTS);
      SimpleCollect(LISTS);
      SimpleCollect(VECTORS);
      SimpleCollect(PAIRS);
      KeptAll(pools[CLOSURES], Dying(CLOSURES, true));
      ReleaseAllFree(CLOSURES, true);
    }

    method Do(step: Step)
      requires Valid()
      modifies this`index, this`pools, this`obj, this`gc, oln
      ensures Valid()
    {
      hide Flat, Split, Kept;
      match step
      case Booking(p, o) =>
        if o !in gc {
          SetGeneration(o, GEN_1_OBJ);
        }
        var node := Book(p, o);
      case Freeing(p, o) =>
        var i := FreeFromPool(p, o);
      case Releasing(p, force) => ReleaseAllFree(p, force);
      case Sweeping(force) => Sweep(force);
      case Allocating(p) =>
        var o := PoolMalloc(p);
      case Marking(o, generation) => SetGeneration(o, generation);
      case Recycling => TryToRecycle();
    }

    // After any run every node is in one place and the index is the number of
    // nodes in the pools; gc_clean_cache and then gc_clean find all returned.
    method RunAndClean(steps: seq<Step>)
      requires Valid()
      modifies this`index, this`pools, this`obj, this`gc, oln
      ensures Valid() && index == 0
      ensures forall n :: n in nodes <==> n in oln[..]
    {
      hide Flat, Split, Kept;
      for i := 0 to |steps|
        invariant Valid()
      {
        Do(steps[i]);
        IndexIsTotal(multiset{});
        assert index == |Flat(pools)|;
      }
      Sweep(true);
      var ok := Clean();
      assert ok;
      AllReturned();
    }

    lemma AllReturned()
      requires Valid() && index == 0
      ensures forall n :: n in nodes <==> n in oln[..]
    {
      IndexIsTotal(multiset{});
      assert oln[index..] == oln[..];
      assert |Flat(pools)| == 0 && Flat(pools) == multiset{};
      forall n
        ensures n in nodes <==> n in oln[..]
      {
        OnePlace(n);
        assert n in multiset(oln[..]) <==> n in oln[..];
      }
    }
  }

  lemma {:induction false} Distinct(s: seq<Node>, all: set<Node>)
    requires forall i, j :: 0 <= i < j < |s| ==> s[i] != s[j]
    requires forall n :: n in all <==> n in s
    ensures |all| == |s| && multiset(s) == multiset(all)
  {
    if s != [] {
      var last := s[|s| - 1];
      assert s == s[..|s| - 1] + [last];
      assert forall n :: n in all - {last} <==> n in s[..|s| - 1];
      Distinct(s[..|s| - 1], all - {last});
      assert all == (all - {last}) + {last};
    }
  }
}
