/**
  The objlinks of tinygc.c as values, the bucket an address hashes to, and the
  theory of the bucket table: chains in strictly descending address order, each
  object in the bucket of its address.
*/
module ObjectLinks {
  import opened Words
  import opened Chains

  // GC_LOG2_OFFIGNORE is 8: bucket selection ignores the offset in a page.
  const PAGE: nat := 256

  // at is the address of the objlink itself, obj the object's base address,
  // tagged the size with the atomic tag in the top bit.
  datatype ObjLink = ObjLink(at: nat, obj: nat, tagged: nat) {
    function Size(w: Width): nat {
      tagged % w.Tag()
    }

    predicate Atomic(w: Width) {
      tagged >= w.Tag()
    }

    // The part of the object that is searched for pointers ends here.
    function ScanEnd(w: Width): nat {
      obj + Size(w) - Size(w) % w.Bytes()
    }

    predicate Covers(w: Width, addr: nat) {
      obj <= addr < obj + Size(w)
    }

    predicate Ok(w: Width) {
      && 0 < at && 0 < obj && obj % w.Bytes() == 0 && obj + PAGE < w.Modulus()
      && tagged < w.Modulus() && 0 < Size(w) && obj + Size(w) <= w.Modulus()
    }
  }

  predicate Apart(w: Width, o: ObjLink, p: ObjLink) {
    o.obj + o.Size(w) <= p.obj || p.obj + p.Size(w) <= o.obj
  }

  // Distinct objlinks with disjoint objects, each tracked once.
  ghost predicate Sound(w: Width, t: multiset<ObjLink>) {
    && (forall o :: o in t ==> t[o] == 1 && o.Ok(w))
    && (forall o, p :: o in t && p in t && o != p ==> o.at != p.at && Apart(w, o, p))
  }

  function Hash(log2: nat, addr: nat): (b: nat)
    ensures b < Pow2(log2)
  {
    Shr(Xor(Shr(addr, log2), addr), 8) % Pow2(log2)
  }

  lemma HashOfPage(log2: nat, addr: nat)
    ensures Hash(log2, addr) == Xor(Shr(addr / PAGE, log2), addr / PAGE) % Pow2(log2)
  {
    ShrXor(Shr(addr, log2), addr, 8);
    ShrShr(addr, log2, 8);
    ShrShr(addr, 8, log2);
    ShrByte(addr);
  }

  // The bucket depends on the page alone; pages may share buckets.
  lemma SamePageSameHash(log2: nat, a: nat, b: nat)
    requires a / PAGE == b / PAGE
    ensures Hash(log2, a) == Hash(log2, b)
  {
    HashOfPage(log2, a);
    HashOfPage(log2, b);
  }

  predicate Descending(c: seq<ObjLink>) {
    forall i, j :: 0 <= i < j < |c| ==> c[i].obj > c[j].obj
  }

  ghost predicate InBucket(c: seq<ObjLink>, b: nat, log2: nat) {
    Descending(c) && forall o :: o in c ==> Hash(log2, o.obj) == b
  }

  ghost predicate Placed(h: seq<seq<ObjLink>>, log2: nat) {
    |h| == Pow2(log2) && forall b :: 0 <= b < |h| ==> InBucket(h[b], b, log2)
  }

  ghost function Members(h: seq<seq<ObjLink>>): set<ObjLink> {
    set o | o in Flatten(h)
  }

  lemma InMembers(h: seq<seq<ObjLink>>, log2: nat, o: ObjLink)
    requires Placed(h, log2)
    ensures o in Members(h) <==> o in h[Hash(log2, o.obj)]
  {
    InFlatten(h, o);
    if o in Members(h) {
      var b :| 0 <= b < |h| && o in h[b];
      assert InBucket(h[b], b, log2);
    }
  }

  // Total size of a list of objects.
  ghost function Bytes(w: Width, s: seq<ObjLink>): nat {
    if s == [] then 0 else s[0].Size(w) + Bytes(w, s[1..])
  }

  lemma NoBytes(w: Width)
    ensures Bytes(w, []) == 0 && TaggedSum([]) == 0
  {
  }

  lemma TaggedSumOne(o: ObjLink)
    ensures TaggedSum([o]) == o.tagged
  {
    assert [o][1..] == [];
  }

  lemma BytesHead(w: Width, s: seq<ObjLink>)
    requires s != []
    ensures Bytes(w, s) == s[0].Size(w) + Bytes(w, s[1..])
  {
  }

  lemma {:induction false} BytesConcat(w: Width, s: seq<ObjLink>, t: seq<ObjLink>)
    ensures Bytes(w, s + t) == Bytes(w, s) + Bytes(w, t)
  {
    if s == [] {
      assert s + t == t;
    } else {
      assert (s + t)[1..] == s[1..] + t;
      BytesConcat(w, s[1..], t);
    }
  }

  lemma {:induction false} BytesUpdate(w: Width, h: seq<seq<ObjLink>>, b: nat, c: seq<ObjLink>)
    requires b < |h|
    ensures Bytes(w, Flatten(h[b := c])) + Bytes(w, h[b]) == Bytes(w, Flatten(h)) + Bytes(w, c)
  {
    BytesConcat(w, h[0], Flatten(h[1..]));
    BytesConcat(w, h[b := c][0], Flatten(h[b := c][1..]));
    if b == 0 {
      assert h[b := c][1..] == h[1..];
    } else {
      assert h[b := c][0] == h[0] && h[b := c][1..] == h[1..][b - 1 := c];
      BytesUpdate(w, h[1..], b - 1, c);
    }
  }

  // Sum of the size words with their tags, as removed_bytes and totalsize are.
  ghost function TaggedSum(s: seq<ObjLink>): nat {
    if s == [] then 0 else s[0].tagged + TaggedSum(s[1..])
  }

  ghost function AtomicCount(w: Width, s: seq<ObjLink>): nat {
    if s == [] then 0 else (if s[0].Atomic(w) then 1 else 0) + AtomicCount(w, s[1..])
  }

  lemma {:induction false} TaggedSumParts(w: Width, s: seq<ObjLink>)
    requires forall o :: o in s ==> o.tagged < w.Modulus()
    ensures TaggedSum(s) == Bytes(w, s) + AtomicCount(w, s) * w.Tag()
  {
    if s != [] {
      TaggedSumParts(w, s[1..]);
    }
  }

  // Adding up first and masking the sum once is exact below the tag.
  lemma MaskAfterSum(w: Width, s: seq<ObjLink>)
    requires forall o :: o in s ==> o.tagged < w.Modulus()
    ensures TaggedSum(s) % w.Modulus() % w.Tag() == Bytes(w, s) % w.Tag()
  {
    TaggedSumParts(w, s);
    MaskTags(w, Bytes(w, s), AtomicCount(w, s));
  }

  lemma MaskTags(w: Width, a: nat, k: nat)
    ensures (a + k * w.Tag()) % w.Modulus() % w.Tag() == a % w.Tag()
  {
    MaskWord(w, a + k * w.Tag());
    DropTags(w, a, k);
  }

  lemma MaskWord(w: Width, a: nat)
    ensures a % w.Modulus() % w.Tag() == a % w.Tag()
  {
  }

  lemma {:induction false} DropTags(w: Width, a: nat, k: nat)
    ensures (a + k * w.Tag()) % w.Tag() == a % w.Tag()
  {
    if k > 0 {
      DropTags(w, a, k - 1);
      assert a + k * w.Tag() == (a + (k - 1) * w.Tag()) + w.Tag();
    }
  }

  lemma {:induction false} TaggedSumConcat(s: seq<ObjLink>, t: seq<ObjLink>)
    ensures TaggedSum(s + t) == TaggedSum(s) + TaggedSum(t)
  {
    if s == [] {
      assert s + t == t;
    } else {
      assert (s + t)[1..] == s[1..] + t;
      TaggedSumConcat(s[1..], t);
    }
  }

  // *pnext = objlink->next
  function Unlinked(h: seq<seq<ObjLink>>, b: nat, i: nat): seq<seq<ObjLink>>
    requires b < |h| && i < |h[b]|
  {
    h[b := h[b][..i] + h[b][i + 1..]]
  }

  lemma UnlinkedEffect(w: Width, h: seq<seq<ObjLink>>, log2: nat, b: nat, i: nat)
    requires Placed(h, log2) && b < |h| && i < |h[b]|
    ensures var h' := Unlinked(h, b, i);
      && Placed(h', log2)
      && multiset(Flatten(h')) + multiset{h[b][i]} == multiset(Flatten(h))
      && |Flatten(h')| + 1 == |Flatten(h)|
      && Bytes(w, Flatten(h')) + h[b][i].Size(w) == Bytes(w, Flatten(h))
      && h[b][i] in Members(h)
      && Members(h') == Members(h) - {h[b][i]}
  {
    hide Placed, Flatten, Bytes;
    UnlinkedPlaced(h, log2, b, i);
    UnlinkedMultiset(h, b, i);
    UnlinkedBytes(w, h, b, i);
    UnlinkedMembers(h, log2, b, i);
  }

  lemma UnlinkedPlaced(h: seq<seq<ObjLink>>, log2: nat, b: nat, i: nat)
    requires Placed(h, log2) && b < |h| && i < |h[b]|
    ensures Placed(Unlinked(h, b, i), log2)
  {
    assert InBucket(h[b], b, log2);
    assert InBucket(h[b][..i] + h[b][i + 1..], b, log2);
  }

  lemma UnlinkedMultiset(h: seq<seq<ObjLink>>, b: nat, i: nat)
    requires b < |h| && i < |h[b]|
    ensures multiset(Flatten(Unlinked(h, b, i))) + multiset{h[b][i]} == multiset(Flatten(h))
    ensures |Flatten(Unlinked(h, b, i))| + 1 == |Flatten(h)|
  {
    var c' := h[b][..i] + h[b][i + 1..];
    FlattenUpdate(h, b, c');
    MultisetSplit(h[b], i);
    UnlinkedCount(multiset(Flatten(h[b := c'])), multiset(Flatten(h)), multiset(c'), h[b][i]);
  }

  lemma UnlinkedBytes(w: Width, h: seq<seq<ObjLink>>, b: nat, i: nat)
    requires b < |h| && i < |h[b]|
    ensures Bytes(w, Flatten(Unlinked(h, b, i))) + h[b][i].Size(w) == Bytes(w, Flatten(h))
  {
    var c := h[b];
    BytesUpdate(w, h, b, c[..i] + c[i + 1..]);
    BytesConcat(w, c[..i], c[i + 1..]);
    assert c == c[..i] + ([c[i]] + c[i + 1..]);
    BytesConcat(w, c[..i], [c[i]] + c[i + 1..]);
  }

  lemma UnlinkedCount(m': multiset<ObjLink>, m: multiset<ObjLink>, c: multiset<ObjLink>, o: ObjLink)
    requires m' + (c + multiset{o}) == m + c
    ensures m' + multiset{o} == m
  {
    assert (m' + multiset{o}) + c == m' + (c + multiset{o});
    forall x ensures (m' + multiset{o})[x] == m[x] {
      assert ((m' + multiset{o}) + c)[x] == (m + c)[x];
    }
  }

  lemma UnlinkedMembers(h: seq<seq<ObjLink>>, log2: nat, b: nat, i: nat)
    requires Placed(h, log2) && b < |h| && i < |h[b]|
    ensures h[b][i] in Members(h)
    ensures Members(Unlinked(h, b, i)) == Members(h) - {h[b][i]}
  {
    UnlinkedPlaced(h, log2, b, i);
    assert InBucket(h[b], b, log2);
    InMembers(h, log2, h[b][i]);
    forall o ensures o in Members(Unlinked(h, b, i)) <==> o in Members(h) - {h[b][i]} {
      UnlinkedMember(h, log2, b, i, o);
    }
  }

  lemma ChainWithout(c: seq<ObjLink>, i: nat, o: ObjLink)
    requires Descending(c) && i < |c|
    ensures o in c[..i] + c[i + 1..] <==> o in c && o != c[i]
  {
    if o in c {
      var k :| 0 <= k < |c| && c[k] == o;
      assert k < i ==> c[..i][k] == o;
      assert k > i ==> c[i + 1..][k - i - 1] == o;
    }
  }

  lemma UnlinkedMember(h: seq<seq<ObjLink>>, log2: nat, b: nat, i: nat, o: ObjLink)
    requires Placed(h, log2) && b < |h| && i < |h[b]|
    ensures o in Members(Unlinked(h, b, i)) <==> o in Members(h) && o != h[b][i]
  {
    hide Members, Hash;
    UnlinkedPlaced(h, log2, b, i);
    InMembers(h, log2, o);
    InMembers(Unlinked(h, b, i), log2, o);
    assert InBucket(h[b], b, log2) && h[b][i] in h[b];
    ChainWithout(h[b], i, o);
  }

  // new->next = *pnext; *pnext = new
  function Linked(h: seq<seq<ObjLink>>, b: nat, i: nat, o: ObjLink): seq<seq<ObjLink>>
    requires b < |h| && i <= |h[b]|
  {
    h[b := h[b][..i] + [o] + h[b][i..]]
  }

  // i is where a chain is entered for addr: the first object not above it.
  ghost predicate EntryPoint(c: seq<ObjLink>, i: nat, addr: nat) {
    && i <= |c|
    && (forall j :: 0 <= j < i ==> c[j].obj > addr)
    && (i < |c| ==> c[i].obj <= addr)
  }

  lemma LinkedEffect(w: Width, h: seq<seq<ObjLink>>, log2: nat, i: nat, o: ObjLink)
    requires Placed(h, log2)
    requires var b := Hash(log2, o.obj); EntryPoint(h[b], i, o.obj) && (i < |h[b]| ==> h[b][i].obj < o.obj)
    ensures var h' := Linked(h, Hash(log2, o.obj), i, o);
      && Placed(h', log2)
      && multiset(Flatten(h')) == multiset(Flatten(h)) + multiset{o}
      && |Flatten(h')| == |Flatten(h)| + 1
      && Bytes(w, Flatten(h')) == Bytes(w, Flatten(h)) + o.Size(w)
      && Members(h') == Members(h) + {o}
  {
    hide Flatten, Bytes, Members, Hash;
    var b := Hash(log2, o.obj);
    var h' := Linked(h, b, i, o);
    assert Placed(h', log2) by {
      assert InBucket(h[b], b, log2);
      LinkedChain(h[b], b, log2, i, o);
    }
    assert h'[b][i] == o && h == Unlinked(h', b, i) by {
      assert h[b] == h'[b][..i] + h'[b][i + 1..];
    }
    LinkedIsInverse(w, h', log2, b, i);
  }

  lemma LinkedIsInverse(w: Width, h': seq<seq<ObjLink>>, log2: nat, b: nat, i: nat)
    requires Placed(h', log2) && b < |h'| && i < |h'[b]|
    ensures var h, o := Unlinked(h', b, i), h'[b][i];
      && multiset(Flatten(h')) == multiset(Flatten(h)) + multiset{o}
      && |Flatten(h')| == |Flatten(h)| + 1
      && Bytes(w, Flatten(h')) == Bytes(w, Flatten(h)) + o.Size(w)
      && Members(h') == Members(h) + {o} && o !in Members(h)
  {
    hide Placed, Flatten, Bytes, Members;
    UnlinkedEffect(w, h', log2, b, i);
  }

  lemma LinkedChain(c: seq<ObjLink>, b: nat, log2: nat, i: nat, o: ObjLink)
    requires InBucket(c, b, log2) && b == Hash(log2, o.obj)
    requires EntryPoint(c, i, o.obj) && (i < |c| ==> c[i].obj < o.obj)
    ensures InBucket(c[..i] + [o] + c[i..], b, log2)
  {
  }

  // In a chain of disjoint objects, whichever covers addr is at its entry.
  lemma CoveringIsEntry(w: Width, c: seq<ObjLink>, i: nat, addr: nat, o: ObjLink)
    requires Descending(c) && EntryPoint(c, i, addr)
    requires forall p, q :: p in c && q in c && p != q ==> Apart(w, p, q)
    requires forall p :: p in c ==> p.Ok(w)
    requires o in c && o.Covers(w, addr)
    ensures i < |c| && c[i] == o
  {
    var k :| 0 <= k < |c| && c[k] == o;
    assert i <= k && c[i] in c;
  }
}
