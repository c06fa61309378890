/**
  The hash tables of disappearing links and finalizers in tinygc.c.  Both are
  arrays of chains in strictly descending key order behind a seeded
  multiplicative hash, and both grow by moving every node into a table twice
  the size under a new seed.  Proved here to be finite maps.
*/
module ChainTables {
  import opened Options
  import opened Words

  datatype Entry<V> = Entry(key: nat, val: V)

  // GC_HASH_INDEX
  function HashIndex(w: Width, word: nat, seed: nat, log2: nat): nat {
    Shr(Xor(word, seed) * 0x9E3779B1 % w.Modulus(), 8 * w.Bytes() - (if log2 <= 8 * w.Bytes() then log2 else 8 * w.Bytes()))
  }

  lemma {:induction false} ShrBound(a: nat, n: nat, m: nat)
    requires a < Pow2(n + m)
    ensures Shr(a, m) < Pow2(n)
  {
    if m > 0 {
      assert Pow2(n + m) == 2 * Pow2(n + (m - 1));
      ShrBound(a / 2, n, m - 1);
    }
  }

  lemma {:induction false} Pow2Sum(a: nat, b: nat)
    ensures Pow2(a + b) == Pow2(a) * Pow2(b)
  {
    if a > 0 {
      Pow2Sum(a - 1, b);
    }
  }

  lemma SquarePow2(a: nat, p: nat)
    requires Pow2(a) == p
    ensures Pow2(2 * a) == p * p
  {
    Pow2Sum(a, a);
  }

  lemma WordsArePow2(w: Width)
    ensures w.Modulus() == Pow2(8 * w.Bytes())
  {
    hide Pow2;
    SquarePow2One();
    SquarePow2(1, 2);
    SquarePow2(2, 4);
    SquarePow2(4, 0x10);
    SquarePow2(8, 0x100);
    SquarePow2(16, 0x1_0000);
    SquarePow2(32, 0x1_0000_0000);
  }

  lemma SquarePow2One()
    ensures Pow2(1) == 2
  {
  }

  // The hash selects one of the buckets.
  lemma HashInRange(w: Width, word: nat, seed: nat, log2: nat)
    requires log2 <= 8 * w.Bytes()
    ensures HashIndex(w, word, seed, log2) < Pow2(log2)
  {
    WordsArePow2(w);
    ShrBound(Xor(word, seed) * 0x9E3779B1 % w.Modulus(), log2, 8 * w.Bytes() - log2);
  }

  // How a table finds the bucket of a key: keys are hashed in grains of
  // addresses.
  datatype Placement = Placement(w: Width, grain: nat, seed: nat, log2: nat) {
    predicate Ok() {
      0 < grain && log2 <= 8 * w.Bytes()
    }

    function Bucket(key: nat): (b: nat)
      requires Ok()
      ensures b < Pow2(log2)
    {
      HashInRange(w, key / grain, seed, log2);
      HashIndex(w, key / grain, seed, log2)
    }
  }

  ghost predicate Sorted<V>(c: seq<Entry<V>>) {
    forall i, j :: 0 <= i < j < |c| ==> c[i].key > c[j].key
  }

  // Chain c is bucket b of a table for map m.
  ghost predicate ChainFor<V>(c: seq<Entry<V>>, p: Placement, b: nat, m: map<nat, V>)
    requires p.Ok()
  {
    && Sorted(c)
    && (forall e :: e in c ==> 0 < e.key && p.Bucket(e.key) == b && e.key in m && m[e.key] == e.val)
    && (forall k :: k in m && p.Bucket(k) == b ==> Entry(k, m[k]) in c)
  }

  ghost predicate TableFor<V>(h: seq<seq<Entry<V>>>, p: Placement, m: map<nat, V>) {
    p.Ok() && |h| == Pow2(p.log2) && forall b :: 0 <= b < |h| ==> ChainFor(h[b], p, b, m)
  }

  lemma EmptyTable<V>(h: seq<seq<Entry<V>>>, p: Placement)
    requires p.Ok() && |h| == Pow2(p.log2) && forall b :: 0 <= b < |h| ==> h[b] == []
    ensures TableFor(h, p, map[])
  {
  }

  // Where a descending chain is left by a search for key: at the first entry
  // that is not above it.
  ghost predicate Stop<V>(c: seq<Entry<V>>, i: nat, key: nat) {
    i <= |c| && (forall j :: 0 <= j < i ==> c[j].key > key) && (i < |c| ==> c[i].key <= key)
  }

  // Stopping early misses nothing.
  lemma StopFinds<V>(c: seq<Entry<V>>, p: Placement, b: nat, m: map<nat, V>, i: nat, key: nat)
    requires p.Ok() && ChainFor(c, p, b, m) && Stop(c, i, key) && p.Bucket(key) == b
    ensures key in m <==> i < |c| && c[i].key == key
    ensures key in m ==> c[i].val == m[key]
  {
    if key in m {
      var k :| 0 <= k < |c| && c[k] == Entry(key, m[key]);
      assert i <= k;
    }
    if i < |c| && c[i].key == key {
      assert c[i] in c;
    }
  }

  lemma ReplacedChain<V>(c: seq<Entry<V>>, p: Placement, b: nat, m: map<nat, V>, i: nat, val: V)
    requires p.Ok() && ChainFor(c, p, b, m) && i < |c|
    ensures ChainFor(c[i := Entry(c[i].key, val)], p, b, m[c[i].key := val])
  {
    hide Placement.Bucket;
    var key := c[i].key;
    var c', m' := c[i := Entry(key, val)], m[key := val];
    forall e | e in c' ensures 0 < e.key && p.Bucket(e.key) == b && e.key in m' && m'[e.key] == e.val {
      var k :| 0 <= k < |c'| && c'[k] == e;
      assert c[k] in c && c[i] in c;
    }
    forall k | k in m' && p.Bucket(k) == b ensures Entry(k, m'[k]) in c' {
      if k == key {
        assert c'[i] == Entry(k, m'[k]);
      } else {
        var j :| 0 <= j < |c| && c[j] == Entry(k, m[k]);
        assert c'[j] == c[j];
      }
    }
  }

  lemma InsertedEntries<V>(c: seq<Entry<V>>, i: nat, x: Entry<V>)
    requires Sorted(c) && Stop(c, i, x.key) && forall e :: e in c ==> e.key != x.key
    ensures Sorted(c[..i] + [x] + c[i..])
    ensures forall e :: e in c[..i] + [x] + c[i..] <==> e == x || e in c
  {
    var c' := c[..i] + [x] + c[i..];
    assert c == c[..i] + c[i..];
    assert i < |c| ==> c[i] in c;
    forall m, n | 0 <= m < n < |c'| ensures c'[m].key > c'[n].key {
      assert c'[m] == if m < i then c[m] else if m == i then x else c[m - 1];
      assert c'[n] == if n < i then c[n] else if n == i then x else c[n - 1];
    }
  }

  lemma RemovedEntries<V>(c: seq<Entry<V>>, i: nat)
    requires Sorted(c) && i < |c|
    ensures Sorted(c[..i] + c[i + 1..])
    ensures forall e :: e in c[..i] + c[i + 1..] <==> e in c && e.key != c[i].key
  {
    assert c == c[..i] + [c[i]] + c[i + 1..];
    forall e | e in c[..i] + c[i + 1..] ensures e.key != c[i].key {
      if e in c[..i] {
        var k :| 0 <= k < i && c[..i][k] == e;
        assert c[k].key > c[i].key;
      } else {
        var k :| 0 <= k < |c| - i - 1 && c[i + 1..][k] == e;
        assert c[i].key > c[i + 1 + k].key;
      }
    }
  }

  lemma InsertedChain<V>(c: seq<Entry<V>>, p: Placement, b: nat, m: map<nat, V>, i: nat, key: nat, val: V)
    requires p.Ok() && ChainFor(c, p, b, m) && Stop(c, i, key) && p.Bucket(key) == b && key !in m && 0 < key
    ensures ChainFor(c[..i] + [Entry(key, val)] + c[i..], p, b, m[key := val])
  {
    hide Placement.Bucket, Sorted, Stop;
    InsertedEntries(c, i, Entry(key, val));
  }

  lemma RemovedChain<V>(c: seq<Entry<V>>, p: Placement, b: nat, m: map<nat, V>, i: nat)
    requires p.Ok() && ChainFor(c, p, b, m) && i < |c|
    ensures ChainFor(c[..i] + c[i + 1..], p, b, m - {c[i].key})
  {
    hide Placement.Bucket, Sorted;
    RemovedEntries(c, i);
  }

  // A change of one key leaves the other buckets alone.
  lemma OtherChain<V>(c: seq<Entry<V>>, p: Placement, b: nat, m: map<nat, V>, m': map<nat, V>, key: nat)
    requires p.Ok() && ChainFor(c, p, b, m) && p.Bucket(key) != b
    requires forall k :: k != key ==> (k in m <==> k in m') && (k in m ==> m[k] == m'[k])
    ensures ChainFor(c, p, b, m')
  {
  }

  lemma ChangedTable<V>(h: seq<seq<Entry<V>>>, p: Placement, b: nat, c: seq<Entry<V>>, m: map<nat, V>, m': map<nat, V>, key: nat)
    requires TableFor(h, p, m) && b < |h| && p.Bucket(key) == b && ChainFor(c, p, b, m')
    requires forall k :: k != key ==> (k in m <==> k in m') && (k in m ==> m[k] == m'[k])
    ensures TableFor(h[b := c], p, m')
  {
    var h' := h[b := c];
    forall a | 0 <= a < |h'| ensures ChainFor(h'[a], p, a, m') {
      if a != b {
        OtherChain(h[a], p, a, m, m', key);
      }
    }
  }

  lemma HeadMeans<V>(c: seq<Entry<V>>, p: Placement, b: nat, m: map<nat, V>)
    requires p.Ok() && ChainFor(c, p, b, m) && c != []
    ensures c[0].key in m
  {
    assert c[0] in c;
  }

  lemma NextStop<V>(c: seq<Entry<V>>, i: nat, key: nat)
    requires Sorted(c) && Stop(c, i, key) && i < |c|
    ensures Stop(c[..i] + c[i + 1..], i, key)
  {
  }

  // Once the search is past min no key of the range is left in the bucket.
  lemma RangeGone<V>(c: seq<Entry<V>>, p: Placement, b: nat, m: map<nat, V>, i: nat, min: nat, max: nat)
    requires p.Ok() && ChainFor(c, p, b, m) && Stop(c, i, max) && (i < |c| ==> c[i].key < min)
    ensures forall k :: k in m && p.Bucket(k) == b ==> !(min <= k <= max)
  {
    forall k | k in m && p.Bucket(k) == b ensures !(min <= k <= max) {
      var j :| 0 <= j < |c| && c[j] == Entry(k, m[k]);
    }
  }

  method Probe<V>(c: seq<Entry<V>>, key: nat) returns (i: nat)
    ensures Stop(c, i, key)
  {
    i := 0;
    while i < |c| && c[i].key > key
      invariant i <= |c| && forall j :: 0 <= j < i ==> c[j].key > key
    {
      i := i + 1;
    }
  }

  class ChainTable<V> {
    const w: Width
    const grain: nat
    var hroots: seq<seq<Entry<V>>>
    var seed: nat
    var log2Size: nat
    var count: nat
    // What the table means.
    ghost var model: map<nat, V>

    function Place(): Placement
      reads this`seed, this`log2Size
    {
      Placement(w, grain, seed, log2Size)
    }

    ghost predicate Valid()
      reads this
    {
      TableFor(hroots, Place(), model) && count == |model|
    }

    constructor (w: Width, grain: nat, log2: nat)
      requires 0 < grain && log2 <= 8 * w.Bytes()
      ensures Valid() && model == map[] && count == 0 && Place() == Placement(w, grain, 0, log2) && fresh(this)
    {
      this.w, this.grain := w, grain;
      hroots := seq(Pow2(log2), _ => []);
      seed, log2Size, count, model := 0, log2, 0, map[];
      new;
      hide Pow2, Placement.Bucket;
      EmptyTable(hroots, Place());
    }

    lemma PositiveKeys()
      requires Valid()
      ensures 0 !in model
    {
      hide Placement.Bucket;
      if 0 in model {
        Stored(0);
        Meant(Place().Bucket(0), Entry(0, model[0]));
      }
    }

    lemma PlaceOk()
      requires Valid()
      ensures Place().Ok()
    {
    }

    // Nodes and meaning, one by one.
    lemma Stored(k: nat)
      requires Valid() && k in model
      ensures Place().Ok() && Place().Bucket(k) < |hroots| && Entry(k, model[k]) in hroots[Place().Bucket(k)]
    {
    }

    lemma Meant(b: nat, e: Entry<V>)
      requires Valid() && b < |hroots| && e in hroots[b]
      ensures 0 < e.key && e.key in model && model[e.key] == e.val
    {
      assert ChainFor(hroots[b], Place(), b, model);
    }

    // The node with the key, if there is one.
    method Find(key: nat) returns (found: Option<V>)
      requires Valid()
      ensures found == if key in model then Some(model[key]) else None
    {
      hide Sorted, Stop, ChainFor, Placement.Bucket;
      var c := hroots[Place().Bucket(key)];
      var i := Probe(c, key);
      StopFinds(c, Place(), Place().Bucket(key), model, i, key);
      ProbeBound(c, i, key);
      return if i < |c| && c[i].key == key then Some(c[i].val) else None;
    }

    // GC_dlink_add and GC_fnlz_add_del once they have a node: replace what is
    // stored for the key, or link the node in before the first smaller key.
    method Put(key: nat, val: V) returns (duplicate: bool)
      requires Valid() && 0 < key
      modifies this`hroots, this`count, this`model
      ensures Valid() && duplicate == (key in old(model)) && model == old(model)[key := val]
      ensures count == old(count) + if duplicate then 0 else 1
    {
      hide Sorted, Stop, ChainFor, Placement.Bucket;
      var p := Place();
      var b := p.Bucket(key);
      var c := hroots[b];
      var i := Probe(c, key);
      ProbeBound(c, i, key);
      StopFinds(c, p, b, model, i, key);
      model := model[key := val];
      duplicate := i < |c| && c[i].key == key;
      if duplicate {
        ReplacedChain(c, p, b, old(model), i, val);
        ChangedTable(hroots, p, b, c[i := Entry(c[i].key, val)], old(model), model, key);
        hroots := hroots[b := c[i := Entry(c[i].key, val)]];
      } else {
        InsertedChain(c, p, b, old(model), i, key, val);
        ChangedTable(hroots, p, b, c[..i] + [Entry(key, val)] + c[i..], old(model), model, key);
        hroots := hroots[b := c[..i] + [Entry(key, val)] + c[i..]];
        count := count + 1;
      }
    }

    static lemma ProbeBound(c: seq<Entry<V>>, i: nat, key: nat)
      requires Stop(c, i, key)
      ensures i <= |c|
    {
    }

    // *pnext = node->next
    method Unlink(b: nat, i: nat) returns (e: Entry<V>)
      requires Valid() && b < |hroots| && i < |hroots[b]|
      modifies this`hroots, this`count, this`model
      ensures Valid() && e == old(hroots[b][i]) && e.key in old(model) && old(model)[e.key] == e.val
      ensures model == old(model) - {e.key} && count + 1 == old(count)
      ensures hroots == old(hroots)[b := old(hroots[b][..i] + hroots[b][i + 1..])]
    {
      hide Sorted, Placement.Bucket;
      var c := hroots[b];
      e := c[i];
      assert ChainFor(c, Place(), b, model) && e in c;
      RemovedChain(c, Place(), b, model, i);
      ChangedTable(hroots, Place(), b, c[..i] + c[i + 1..], model, model - {e.key}, e.key);
      model := model - {e.key};
      hroots := hroots[b := c[..i] + c[i + 1..]];
      count := count - 1;
    }

    // GC_fnlz_add_del without a function: the node with the key goes.
    method Delete(key: nat) returns (found: bool)
      requires Valid()
      modifies this`hroots, this`count, this`model
      ensures Valid() && found == (key in old(model)) && model == old(model) - {key}
      ensures count + (if found then 1 else 0) == old(count)
    {
      hide Sorted, Stop, ChainFor, Placement.Bucket;
      var c := hroots[Place().Bucket(key)];
      var i := Probe(c, key);
      StopFinds(c, Place(), Place().Bucket(key), model, i, key);
      ProbeBound(c, i, key);
      found := i < |c| && c[i].key == key;
      if found {
        var _ := Unlink(Place().Bucket(key), i);
      }
    }

    // GC_dlink_delete: the keys from min to max in one bucket.
    method DeleteRange(key: nat, min: nat, max: nat) returns (deleted: nat)
      requires Valid() && 0 < min
      modifies this`hroots, this`count, this`model
      ensures Valid() && model == old(model) - (set k | k in old(model) && min <= k <= max && Place().Bucket(k) == Place().Bucket(key))
      ensures count + deleted == old(count)
    {
      hide Sorted, Placement.Bucket;
      var b := Place().Bucket(key);
      var i := Probe(hroots[b], max);
      deleted := 0;
      while i < |hroots[b]| && hroots[b][i].key >= min
        invariant Valid() && |hroots| == old(|hroots|)
        invariant Stop(hroots[b], i, max) && count + deleted == old(count)
        invariant forall k :: k in model ==> k in old(model) && old(model)[k] == model[k]
        invariant forall k :: k in old(model) && k !in model ==> min <= k <= max && Place().Bucket(k) == b
      {
        var c := hroots[b];
        assert ChainFor(c, Place(), b, model) && c[i] in c;
        NextStop(c, i, max);
        var e := Unlink(b, i);
        deleted := deleted + 1;
      }
      RangeGone(hroots[b], Place(), b, model, i, min, max);
    }

    // The seed is stirred while the table is empty.
    method Reseed(r: nat)
      requires Valid()
      modifies this`seed
      ensures Valid() && model == old(model)
      ensures seed == if model == map[] then (old(seed) + r) % w.Modulus() else old(seed)
    {
      assert count == |model|;
      if count == 0 {
        hide Placement.Bucket, Sorted;
        assert model == map[];
        NoEntries();
        seed := (seed + r) % w.Modulus();
        EmptyTable(hroots, Place());
      }
    }

    lemma NoEntries()
      requires Valid() && model == map[]
      ensures forall b :: 0 <= b < |hroots| ==> hroots[b] == []
    {
      hide ChainFor;
      forall b | 0 <= b < |hroots| ensures hroots[b] == [] {
        if hroots[b] != [] {
          HeadMeans(hroots[b], Place(), b, model);
        }
      }
    }

    // The node e goes into the new table.
    static method Rehash(h: seq<seq<Entry<V>>>, p: Placement, e: Entry<V>, ghost m: map<nat, V>) returns (h': seq<seq<Entry<V>>>)
      requires TableFor(h, p, m) && e.key !in m && 0 < e.key
      ensures TableFor(h', p, m[e.key := e.val])
    {
      hide Sorted, Stop, ChainFor, Placement.Bucket;
      var b := p.Bucket(e.key);
      var c := h[b];
      var i := Probe(c, e.key);
      ProbeBound(c, i, e.key);
      InsertedChain(c, p, b, m, i, e.key, e.val);
      ChangedTable(h, p, b, c[..i] + [e] + c[i..], m, m[e.key := e.val], e.key);
      h' := h[b := c[..i] + [e] + c[i..]];
    }

    // Some of what an old table means is in the new one: the buckets before b
    // and the first i nodes of chain c, which is bucket b.
    static ghost predicate Moved(m: map<nat, V>, m': map<nat, V>, p: Placement, b: nat, c: seq<Entry<V>>, i: nat)
      requires p.Ok()
    {
      && i <= |c|
      && (forall k :: k in m' ==> k in m && m'[k] == m[k] && (p.Bucket(k) < b || (exists j :: 0 <= j < i && c[j].key == k)))
      && (forall k :: k in m && p.Bucket(k) < b ==> k in m')
      && (forall j :: 0 <= j < i ==> c[j].key in m')
    }

    static lemma MovedOne(m: map<nat, V>, m': map<nat, V>, p: Placement, b: nat, c: seq<Entry<V>>, i: nat)
      requires p.Ok() && ChainFor(c, p, b, m) && Moved(m, m', p, b, c, i) && i < |c|
      ensures c[i].key !in m' && 0 < c[i].key && Moved(m, m'[c[i].key := c[i].val], p, b, c, i + 1)
    {
      assert c[i] in c;
    }

    static lemma MovedChain(m: map<nat, V>, m': map<nat, V>, p: Placement, b: nat, c: seq<Entry<V>>, next: seq<Entry<V>>)
      requires p.Ok() && ChainFor(c, p, b, m) && Moved(m, m', p, b, c, |c|)
      ensures Moved(m, m', p, b + 1, next, 0)
    {
      forall k | k in m' ensures k in m && m'[k] == m[k] && p.Bucket(k) < b + 1 {
        if p.Bucket(k) >= b {
          var j :| 0 <= j < |c| && c[j].key == k;
          assert c[j] in c;
        }
      }
      forall k | k in m && p.Bucket(k) < b + 1 ensures k in m' {
        if p.Bucket(k) == b {
          var j :| 0 <= j < |c| && c[j] == Entry(k, m[k]);
        }
      }
    }

    // One bucket of a resize.
    method RehashChain(b: nat, h: seq<seq<Entry<V>>>, p: Placement, ghost m: map<nat, V>)
      returns (h': seq<seq<Entry<V>>>, ghost m': map<nat, V>)
      requires Valid() && b < |hroots| && TableFor(h, p, m) && Moved(model, m, Place(), b, hroots[b], 0)
      ensures TableFor(h', p, m') && Moved(model, m', Place(), b, hroots[b], |hroots[b]|)
    {
      hide Placement.Bucket, Sorted, Moved;
      h', m' := h, m;
      var c := hroots[b];
      var i := 0;
      while i < |c|
        invariant i <= |c| && TableFor(h', p, m') && Moved(model, m', Place(), b, c, i)
      {
        MovedOne(model, m', Place(), b, c, i);
        h' := Rehash(h', p, c[i], m');
        m' := m'[c[i].key := c[i].val];
        i := i + 1;
      }
    }

    // GC_dlink_tblresize and GC_fnlz_tblresize: every node moves to its place
    // in the new table, under the new seed.
    method Resize(newLog2: nat, newSeed: nat)
      requires Valid() && newLog2 <= 8 * w.Bytes()
      modifies this`hroots, this`seed, this`log2Size
      ensures Valid() && model == old(model) && log2Size == newLog2 && seed == newSeed
    {
      hide Pow2, Placement.Bucket, Sorted, Moved, ChainFor;
      var p := Placement(w, grain, newSeed, newLog2);
      var h: seq<seq<Entry<V>>> := seq(Pow2(newLog2), _ => []);
      EmptyTable(h, p);
      ghost var m: map<nat, V> := map[];
      var b := 0;
      NothingMoved(model, Place(), if |hroots| > 0 then hroots[0] else []);
      while b < |hroots|
        invariant Valid() && unchanged(this) && b <= |hroots| && TableFor(h, p, m)
        invariant Moved(model, m, Place(), b, if b < |hroots| then hroots[b] else [], 0)
      {
        h, m := RehashChain(b, h, p, m);
        MovedChain(model, m, Place(), b, hroots[b], if b + 1 < |hroots| then hroots[b + 1] else []);
        b := b + 1;
      }
      AllMoved(model, m, Place());
      hroots, seed, log2Size := h, newSeed, newLog2;
    }

    static lemma NothingMoved(m: map<nat, V>, p: Placement, c: seq<Entry<V>>)
      requires p.Ok()
      ensures Moved(m, map[], p, 0, c, 0)
    {
    }

    static lemma AllMoved(m: map<nat, V>, m': map<nat, V>, p: Placement)
      requires p.Ok() && Moved(m, m', p, Pow2(p.log2), [], 0)
      ensures m' == m
    {
      forall k | k in m ensures k in m' {
        assert p.Bucket(k) < Pow2(p.log2);
      }
    }
  }
}
