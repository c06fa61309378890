/**
  The data roots of tinygc.c: a list of address intervals, edited in place,
  that stays sorted with non-empty gaps and denotes a set of addresses.
*/
module Roots {
  import opened Words

  datatype Root = Root(begin: nat, end: nat) {
    predicate Has(a: int) {
      begin <= a < end
    }

    // Lies in [b, e).
    predicate Inside(b: nat, e: nat) {
      b <= begin && end <= e
    }
  }

  ghost predicate Covered(s: seq<Root>, a: int) {
    exists r :: r in s && r.Has(a)
  }

  ghost predicate Spaced(s: seq<Root>) {
    && (forall i :: 0 <= i < |s| ==> s[i].begin < s[i].end)
    && (forall i, j :: 0 <= i < j < |s| ==> s[i].end < s[j].begin)
  }

  ghost function Total(s: seq<Root>): nat
    requires forall r :: r in s ==> r.begin < r.end
  {
    if s == [] then 0 else s[0].end - s[0].begin + Total(s[1..])
  }

  lemma {:induction false} TotalConcat(s: seq<Root>, t: seq<Root>)
    requires forall r :: r in s + t ==> r.begin < r.end
    ensures (forall r :: r in s ==> r.begin < r.end) && (forall r :: r in t ==> r.begin < r.end)
    ensures Total(s + t) == Total(s) + Total(t)
  {
    forall r | r in s || r in t ensures r.begin < r.end {
      assert r in s + t;
    }
    if s == [] {
      assert s + t == t;
    } else {
      assert (s + t)[1..] == s[1..] + t;
      TotalConcat(s[1..], t);
    }
  }

  // Replacing s[i..j] by t changes the length by theirs.
  lemma TotalSplice(s: seq<Root>, i: nat, j: nat, t: seq<Root>)
    requires i <= j <= |s| && (forall r :: r in s ==> r.begin < r.end) && (forall r :: r in t ==> r.begin < r.end)
    ensures forall r :: r in s[..i] + t + s[j..] ==> r.begin < r.end
    ensures forall r :: r in s[i..j] ==> r.begin < r.end
    ensures Total(s[..i] + t + s[j..]) + Total(s[i..j]) == Total(s) + Total(t)
  {
    assert s == s[..i] + s[i..j] + s[j..];
    assert (s[..i] + t) + s[j..] == s[..i] + t + s[j..];
    TotalConcat(s[..i] + s[i..j], s[j..]);
    TotalConcat(s[..i], s[i..j]);
    TotalConcat(s[..i] + t, s[j..]);
    TotalConcat(s[..i], t);
  }

  lemma TotalOne(r: Root)
    requires r.begin < r.end
    ensures Total([r]) == r.end - r.begin && Total([]) == 0
  {
    assert [r][1..] == [];
  }

  // (a + (sizeof (GC_word) - 1)) & ~(sizeof (GC_word) - 1)
  function AlignUp(w: Width, a: nat): nat {
    var sum := (a + (w.Bytes() - 1)) % w.Modulus();
    sum - sum % w.Bytes()
  }

  // a & ~(sizeof (GC_word) - 1)
  function AlignDown(w: Width, a: nat): nat {
    a - a % w.Bytes()
  }

  // The words that lie in [begin, end) completely.
  predicate InnerWord(w: Width, begin: nat, end: nat, a: nat) {
    a % w.Bytes() == 0 && begin <= a && a + w.Bytes() <= end
  }

  // What aligning gives.
  predicate AlignedWord(w: Width, begin: nat, end: nat, a: nat) {
    a % w.Bytes() == 0 && AlignUp(w, begin) <= a < AlignDown(w, end)
  }

  // Whether aligning [begin, end) gives its inner words: not when the start is
  // rounded up past the last word and there is room in front.
  lemma AlignmentExact(w: Width, begin: nat, end: nat)
    requires begin < w.Modulus() && end < w.Modulus()
    ensures (forall a: nat :: InnerWord(w, begin, end, a) <==> AlignedWord(w, begin, end, a))
            <==> begin <= w.Modulus() - w.Bytes() || end < w.Bytes()
  {
    hide InnerWord, AlignedWord;
    if begin <= w.Modulus() - w.Bytes() || end < w.Bytes() {
      forall a: nat ensures InnerWord(w, begin, end, a) <==> AlignedWord(w, begin, end, a) {
        AlignmentInner(w, begin, end, a);
      }
    } else {
      AlignmentWrapped(w, begin, end);
    }
  }

  lemma AlignmentInner(w: Width, begin: nat, end: nat, a: nat)
    requires begin < w.Modulus() && end < w.Modulus() && (begin <= w.Modulus() - w.Bytes() || end < w.Bytes())
    ensures InnerWord(w, begin, end, a) <==> AlignedWord(w, begin, end, a)
  {
    if a % w.Bytes() == 0 {
      if begin <= w.Modulus() - w.Bytes() {
        AlignUpLeast(w, begin, a);
      }
      AlignDownLast(w, end, a);
    }
  }

  lemma AlignmentWrapped(w: Width, begin: nat, end: nat)
    requires begin < w.Modulus() && end < w.Modulus() && begin > w.Modulus() - w.Bytes() && end >= w.Bytes()
    ensures AlignedWord(w, begin, end, 0) && !InnerWord(w, begin, end, 0)
  {
  }

  lemma AlignUpLeast(w: Width, begin: nat, a: nat)
    requires begin <= w.Modulus() - w.Bytes() && a % w.Bytes() == 0
    ensures begin <= a <==> AlignUp(w, begin) <= a
  {
  }

  lemma AlignDownLast(w: Width, end: nat, a: nat)
    requires a % w.Bytes() == 0
    ensures a + w.Bytes() <= end <==> a < AlignDown(w, end)
  {
  }

  // One such call: the last byte of memory as a region's start.
  lemma AlignmentWraps()
    ensures AlignUp(Bits32, 0xFFFF_FFFE) == 0 && AlignDown(Bits32, 0xFFFF_FFFF) == 0xFFFF_FFFC
    ensures !InnerWord(Bits32, 0xFFFF_FFFE, 0xFFFF_FFFF, 0)
  {
  }

  class DataRoots {
    const w: Width
    var list: seq<Root>
    // dataroot_size
    var size: nat

    ghost predicate Valid()
      reads this
    {
      Spaced(list) && (forall r :: r in list ==> r.begin < r.end) && size == Total(list)
    }

    ghost predicate Covers(a: int)
      reads this`list
    {
      Covered(list, a)
    }

    constructor (w: Width)
      ensures Valid() && list == [] && this.w == w && fresh(this)
    {
      this.w := w;
      list, size := [], 0;
    }

    // No root meets or touches [b, e).
    predicate Detached(b: nat, e: nat)
      reads this`list
    {
      forall r :: r in list ==> r.end < b || e < r.begin
    }

    // Some root has words on both sides of [b, e).
    predicate Straddled(b: nat, e: nat)
      reads this`list
    {
      exists r :: r in list && r.begin < b && e < r.end
    }

    // GC_roots_del_inside: the roots inside [b, e) go.
    method DelInside(b: nat, e: nat) returns (freed: nat)
      requires Valid()
      modifies this
      ensures Valid() && |list| + freed == old(|list|)
      ensures forall r :: r in list <==> r in old(list) && !r.Inside(b, e)
    {
      hide Total;
      var i := 0;
      while i < |list| && list[i].begin < b
        invariant unchanged(this) && i <= |list| && forall k :: 0 <= k < i ==> list[k].begin < b
      {
        i := i + 1;
      }
      freed := DropFrom(i, e);
      KeptOutside(old(list), i, i + freed, b, e);
    }

    // Unlink and free the roots from i on that end by e.
    method DropFrom(i: nat, e: nat) returns (freed: nat)
      requires Valid() && i <= |list|
      modifies this
      ensures Valid() && i + freed <= old(|list|) && list == old(list[..i] + list[i + freed..])
      ensures forall k :: i <= k < i + freed ==> old(list)[k].end <= e
      ensures i + freed < old(|list|) ==> e < old(list)[i + freed].end
    {
      hide Total, Valid;
      freed := 0;
      assert list == list[..i] + list[i..];
      while i < |list| && e >= list[i].end
        invariant Valid() && i + freed <= old(|list|) && list == old(list)[..i] + old(list)[i + freed..]
        invariant forall k :: i <= k < i + freed ==> old(list)[k].end <= e
        decreases |list|
      {
        ghost var rest := old(list)[i + freed..];
        assert list[i + 1..] == rest[1..] == old(list)[i + freed + 1..];
        RemoveAt(i);
        freed := freed + 1;
      }
    }

    static lemma KeptOutside(s: seq<Root>, i: nat, j: nat, b: nat, e: nat)
      requires Spaced(s) && i <= j <= |s|
      requires (forall k :: 0 <= k < i ==> s[k].begin < b) && (i < |s| ==> s[i].begin >= b)
      requires (forall k :: i <= k < j ==> s[k].end <= e) && (j < |s| ==> e < s[j].end)
      ensures forall r :: r in s[..i] + s[j..] <==> r in s && !r.Inside(b, e)
    {
      assert s == s[..i] + s[i..j] + s[j..];
      forall k | 0 <= k < |s| ensures s[k].Inside(b, e) <==> i <= k < j {
      }
      assert forall r :: r in s[..i] ==> !r.Inside(b, e);
      assert forall r :: r in s[i..j] ==> r.Inside(b, e);
      assert forall r :: r in s[j..] ==> !r.Inside(b, e);
    }

    // Unlink and free the root at i.
    method RemoveAt(i: nat)
      requires Valid() && i < |list|
      modifies this
      ensures Valid() && list == old(list[..i] + list[i + 1..])
    {
      hide Total, Spaced;
      RemoveSpaced(list, i);
      TotalSplice(list, i, i + 1, []);
      TotalOne(list[i]);
      size := size - (list[i].end - list[i].begin);
      list := list[..i] + list[i + 1..];
    }

    static lemma RemoveSpaced(s: seq<Root>, i: nat)
      requires Spaced(s) && i < |s|
      ensures Spaced(s[..i] + s[i + 1..]) && s[i].begin < s[i].end
      ensures s[i..i + 1] == [s[i]] && s[..i] + [] + s[i + 1..] == s[..i] + s[i + 1..]
    {
    }

    // The bounds of the root at i change.
    method SetBounds(i: nat, r: Root)
      requires Valid() && i < |list| && r.begin < r.end
      requires (i > 0 ==> list[i - 1].end < r.begin) && (i + 1 < |list| ==> r.end < list[i + 1].begin)
      modifies this
      ensures Valid() && list == old(list)[i := r]
    {
      hide Total, Spaced;
      ChangeSpaced(list, i, r);
      TotalSplice(list, i, i + 1, [r]);
      assert list[i..i + 1] == [list[i]];
      assert list[..i] + [r] + list[i + 1..] == list[i := r];
      TotalOne(list[i]);
      TotalOne(r);
      size := size - (list[i].end - list[i].begin) + (r.end - r.begin);
      list := list[i := r];
    }

    // A new node for r is linked in at i.
    method InsertAt(i: nat, r: Root)
      requires Valid() && i <= |list| && r.begin < r.end
      requires (i > 0 ==> list[i - 1].end < r.begin) && (i < |list| ==> r.end < list[i].begin)
      modifies this
      ensures Valid() && list == old(list[..i] + [r] + list[i..])
    {
      TotalSplice(list, i, i, [r]);
      TotalOne(r);
      InsertSpaced(list, i, r);
      size := size + (r.end - r.begin);
      list := list[..i] + [r] + list[i..];
    }

    static lemma ChangeSpaced(s: seq<Root>, i: nat, r: Root)
      requires Spaced(s) && i < |s| && r.begin < r.end
      requires (i > 0 ==> s[i - 1].end < r.begin) && (i + 1 < |s| ==> r.end < s[i + 1].begin)
      ensures Spaced(s[i := r]) && s[i].begin < s[i].end && forall q :: q in s[i := r] ==> q.begin < q.end
    {
      var s' := s[i := r];
      forall m, n | 0 <= m < n < |s'| ensures s'[m].end < s'[n].begin {
        assert m < i ==> s[m].end <= s[i - 1].end;
        assert i < n ==> s[i + 1].begin <= s[n].begin;
      }
    }

    static lemma InsertSpaced(s: seq<Root>, i: nat, r: Root)
      requires Spaced(s) && i <= |s| && r.begin < r.end
      requires (i > 0 ==> s[i - 1].end < r.begin) && (i < |s| ==> r.end < s[i].begin)
      ensures Spaced(s[..i] + [r] + s[i..])
    {
      var s' := s[..i] + [r] + s[i..];
      forall m, n | 0 <= m < n < |s'| ensures s'[m].end < s'[n].begin {
        assert s'[m] == if m < i then s[m] else if m == i then r else s[m - 1];
        assert s'[n] == if n < i then s[n] else if n == i then r else s[n - 1];
        assert m < i ==> s[m].end <= s[i - 1].end;
        assert i < n ==> s[i].begin <= s[n - 1].begin;
      }
    }

    // The root at i is split around [b, e).
    method Split(i: nat, b: nat, e: nat)
      requires Valid() && i < |list| && list[i].begin < b < e < list[i].end
      modifies this
      ensures Valid() && |list| == old(|list|) + 1
      ensures forall a :: Covers(a) <==> old(Covers(a)) && !(b <= a < e)
    {
      hide Total, Valid, Spaced, Covered;
      var r := list[i];
      SpacedFacts();
      SetBounds(i, Root(r.begin, b));
      InsertAt(i + 1, Root(e, r.end));
      SplitList(old(list), i, Root(r.begin, b), Root(e, r.end));
      SplitCovers(old(list), list, i, b, e);
    }

    static lemma SplitList(s: seq<Root>, i: nat, q: Root, r: Root)
      requires i < |s|
      ensures s[i := q][..i + 1] + [r] + s[i := q][i + 1..] == s[..i] + [q, r] + s[i + 1..]
    {
    }

    // The root at i ends inside [b, e); the next one may begin inside it.
    method Trim(i: nat, b: nat, e: nat)
      requires Valid() && i < |list| && list[i].begin < b < list[i].end <= e && forall r :: r in list ==> !r.Inside(b, e)
      modifies this
      ensures Valid() && |list| == old(|list|)
      ensures forall a :: Covers(a) <==> old(Covers(a)) && !(b <= a < e)
    {
      hide Total, Valid, Spaced, Covered;
      SpacedFacts();
      SetBounds(i, Root(list[i].begin, b));
      if i + 1 < |list| && list[i + 1].begin < e && e < list[i + 1].end {
        SetBounds(i + 1, Root(e, list[i + 1].end));
      }
      TrimCovers(old(list), list, i, b, e);
    }

    // GC_roots_exclude: after GC_roots_del_inside, cut [b, e) out of the roots
    // that are left.  Only the split of a root needs memory.
    method Exclude(b: nat, e: nat, room: bool) returns (ok: bool)
      requires Valid() && b < e && forall r :: r in list ==> !r.Inside(b, e)
      modifies this
      ensures Valid()
      ensures ok ==> forall a :: Covers(a) <==> old(Covers(a)) && !(b <= a < e)
      ensures !ok ==> unchanged(this) && Straddled(b, e)
      ensures ok == (room || !old(Straddled(b, e)))
      ensures |list| == old(|list|) + if ok && old(Straddled(b, e)) then 1 else 0
    {
      hide Total, Valid, Spaced, Covered, Straddled;
      ok := true;
      SpacedFacts();
      var i := 0;
      while i < |list| && b >= list[i].end
        invariant unchanged(this) && i <= |list| && forall k :: 0 <= k < i ==> list[k].end <= b
      {
        i := i + 1;
      }
      StraddledAt(i, b, e);
      if i < |list| && list[i].begin < e {
        assert !list[i].Inside(b, e);
        if list[i].begin < b {
          if e < list[i].end {
            ok := room;
            if ok {
              Split(i, b, e);
            }
          } else {
            Trim(i, b, e);
          }
        } else {
          SetBounds(i, Root(e, list[i].end));
          CutCovers(old(list), list, i, b, e);
        }
      } else {
        AwayCovers(list, i, b, e);
      }
    }

    // Only the first root that ends behind b can be one.
    lemma StraddledAt(i: nat, b: nat, e: nat)
      requires Valid() && b < e && i <= |list| && (forall k :: 0 <= k < i ==> list[k].end <= b) && (i < |list| ==> b < list[i].end)
      ensures Straddled(b, e) <==> i < |list| && list[i].begin < b && e < list[i].end
    {
      assert forall k :: i < k < |list| ==> list[i].end < list[k].begin;
      if Straddled(b, e) {
        var r :| r in list && r.begin < b && e < r.end;
        var k :| 0 <= k < |list| && list[k] == r;
      }
    }

    lemma DetachedAt(i: nat, b: nat, e: nat)
      requires Valid() && b < e && i <= |list| && (forall k :: 0 <= k < i ==> list[k].end < b) && (i < |list| ==> b <= list[i].end)
      ensures Detached(b, e) <==> i == |list| || e < list[i].begin
    {
      if i < |list| && e < list[i].begin {
        forall r | r in list ensures r.end < b || e < r.begin {
          var k :| 0 <= k < |list| && list[k] == r;
          assert k > i ==> list[i].end < list[k].begin;
        }
      }
    }

    lemma SpacedFacts()
      requires Valid()
      ensures Spaced(list)
      ensures forall r :: r in list ==> r.begin < r.end
      ensures forall i :: 0 <= i < |list| ==> list[i].begin < list[i].end
      ensures forall i, j :: 0 <= i < j < |list| ==> list[i].end < list[j].begin
    {
    }

    static lemma CoveredAt(s: seq<Root>, a: int)
      ensures Covered(s, a) <==> exists k :: 0 <= k < |s| && s[k].Has(a)
    {
      if Covered(s, a) {
        var r :| r in s && r.Has(a);
        var k :| 0 <= k < |s| && s[k] == r;
      }
    }

    static lemma CoveredParts(s: seq<Root>, i: nat, mid: seq<Root>, s': seq<Root>, a: int)
      requires i < |s| && s' == s[..i] + mid + s[i + 1..]
      ensures Covered(s', a) <==> Covered(s[..i], a) || Covered(mid, a) || Covered(s[i + 1..], a)
    {
      assert forall r :: r in s' <==> r in s[..i] || r in mid || r in s[i + 1..];
    }

    static lemma AwayCovers(s: seq<Root>, i: nat, b: nat, e: nat)
      requires Spaced(s) && i <= |s| && (forall k :: 0 <= k < i ==> s[k].end <= b) && (i < |s| ==> e <= s[i].begin)
      ensures forall a :: Covered(s, a) ==> !(b <= a < e)
    {
      forall a | Covered(s, a) ensures !(b <= a < e) {
        CoveredAt(s, a);
        var k :| 0 <= k < |s| && s[k].Has(a);
        assert k > i ==> s[i].begin < s[k].begin;
      }
    }

    static lemma CutCovers(s: seq<Root>, s': seq<Root>, i: nat, b: nat, e: nat)
      requires Spaced(s) && i < |s| && (forall k :: 0 <= k < i ==> s[k].end <= b)
      requires b <= s[i].begin < e < s[i].end && s' == s[i := Root(e, s[i].end)]
      ensures forall a :: Covered(s', a) <==> Covered(s, a) && !(b <= a < e)
    {
      forall a ensures Covered(s', a) <==> Covered(s, a) && !(b <= a < e) {
        CoveredAt(s, a);
        CoveredAt(s', a);
        assert forall k :: 0 <= k < |s| && k != i ==> s'[k] == s[k] && (s[k].Has(a) ==> !(b <= a < e));
        assert s[i].Has(a) && !(b <= a < e) <==> s'[i].Has(a);
      }
    }

    static lemma SplitCovers(s: seq<Root>, s': seq<Root>, i: nat, b: nat, e: nat)
      requires Spaced(s) && i < |s| && s[i].begin < b < e < s[i].end
      requires s' == s[..i] + [Root(s[i].begin, b), Root(e, s[i].end)] + s[i + 1..]
      ensures forall a :: Covered(s', a) <==> Covered(s, a) && !(b <= a < e)
    {
      forall a ensures Covered(s', a) <==> Covered(s, a) && !(b <= a < e) {
        var mid := [Root(s[i].begin, b), Root(e, s[i].end)];
        CoveredParts(s, i, [s[i]], s, a);
        CoveredParts(s, i, mid, s', a);
        assert forall r :: r in s[..i] || r in s[i + 1..] ==> (r.Has(a) ==> !(b <= a < e));
        assert mid[0] in mid && mid[1] in mid && s[i] in [s[i]];
      }
    }

    static lemma TrimCovers(s: seq<Root>, s': seq<Root>, i: nat, b: nat, e: nat)
      requires Spaced(s) && i < |s| && s[i].begin < b < s[i].end <= e && forall r :: r in s ==> !r.Inside(b, e)
      requires s' == (if i + 1 < |s| && s[i + 1].begin < e && e < s[i + 1].end
                      then s[i := Root(s[i].begin, b)][i + 1 := Root(e, s[i + 1].end)] else s[i := Root(s[i].begin, b)])
      ensures forall a :: Covered(s', a) <==> Covered(s, a) && !(b <= a < e)
    {
      assert i + 1 < |s| ==> s[i + 1] in s;
      forall a ensures Covered(s', a) <==> Covered(s, a) && !(b <= a < e) {
        CoveredAt(s, a);
        CoveredAt(s', a);
        assert forall k :: 0 <= k < |s| && k != i && k != i + 1 ==> s'[k] == s[k] && (s[k].Has(a) ==> !(b <= a < e));
        assert s[i].Has(a) && !(b <= a < e) <==> s'[i].Has(a);
        assert i + 1 < |s| ==> (s[i + 1].Has(a) && !(b <= a < e) <==> s'[i + 1].Has(a));
      }
    }

    // GC_roots_add, on words: the union with the aligned interval, unless a new
    // node is needed and there is no memory for it.
    method Add(begin: nat, end: nat, room: bool) returns (ok: bool, freed: nat)
      requires Valid() && begin < w.Modulus() && end < w.Modulus()
      modifies this
      ensures Valid()
      ensures ok ==> forall a :: Covers(a) <==> old(Covers(a)) || (begin != 0 && AlignUp(w, begin) <= a < AlignDown(w, end))
      ensures !ok ==> unchanged(this)
      ensures ok == (room || !(begin != 0 && AlignUp(w, begin) < AlignDown(w, end) && old(Detached(AlignUp(w, begin), AlignDown(w, end)))))
      ensures |list| + freed == old(|list|) +
        if ok && begin != 0 && AlignUp(w, begin) < AlignDown(w, end) && old(Detached(AlignUp(w, begin), AlignDown(w, end))) then 1 else 0
    {
      hide Total, Valid, Spaced, Detached, AlignUp, AlignDown, Covered;
      ok, freed := true, 0;
      var b, e := AlignUp(w, begin), AlignDown(w, end);
      if begin != 0 && e > b {
        SpacedFacts();
        var i := 0;
        while i < |list| && list[i].end < b
          invariant unchanged(this) && i <= |list| && forall k :: 0 <= k < i ==> list[k].end < b
        {
          i := i + 1;
        }
        DetachedAt(i, b, e);
        if i == |list| || e < list[i].begin {
          ok := room;
          if ok {
            InsertAt(i, Root(b, e));
            InsertCovers(old(list), list, i, b, e);
          }
        } else {
          freed := Widen(i, b, e);
        }
      }
    }

    static lemma InsertCovers(s: seq<Root>, s': seq<Root>, i: nat, b: nat, e: nat)
      requires i <= |s| && s' == s[..i] + [Root(b, e)] + s[i..]
      ensures forall a :: Covered(s', a) <==> Covered(s, a) || b <= a < e
    {
      assert s == s[..i] + s[i..];
      assert s'[i] == Root(b, e);
      assert forall r :: r in s' <==> r in s || r == Root(b, e);
      forall a ensures Covered(s', a) <==> Covered(s, a) || b <= a < e {
        assert Root(b, e).Has(a) <==> b <= a < e;
      }
    }

    // What is left of s after the root at i has grown to r and swallowed the
    // next n.
    static ghost predicate Swallowed(s: seq<Root>, s': seq<Root>, i: nat, n: nat, r: Root) {
      i + n < |s| && s' == s[..i] + [r] + s[i + 1 + n..]
    }

    // r is the least interval with [b, e), the root at i and the next n roots.
    static ghost predicate Hull(s: seq<Root>, i: nat, n: nat, b: nat, e: nat, r: Root) {
      && i + n < |s|
      && r.begin == (if b < s[i].begin then b else s[i].begin)
      && e <= r.end && s[i].end <= r.end
      && (forall k :: i < k <= i + n ==> s[k].begin <= e && s[k].end <= r.end)
      && (r.end == e || r.end == s[i + n].end)
    }

    static lemma HullStart(s: seq<Root>, i: nat, e: nat)
      requires i < |s| && s[i].end <= e
      ensures Hull(s, i, 0, s[i].begin, e, Root(s[i].begin, e))
    {
    }

    static lemma HullBounds(s: seq<Root>, i: nat, n: nat, b: nat, e: nat, r: Root)
      requires Hull(s, i, n, b, e, r)
      ensures e <= r.end && s[i].end <= r.end
    {
    }

    static lemma HullStep(s: seq<Root>, i: nat, n: nat, e: nat, begin: nat, end: nat)
      requires Spaced(s) && Hull(s, i, n, begin, e, Root(begin, end)) && i + 1 + n < |s| && end >= s[i + 1 + n].begin
      ensures Hull(s, i, n + 1, begin, e, Root(begin, if s[i + 1 + n].end >= end then s[i + 1 + n].end else end))
    {
    }

    static lemma HullCovers(s: seq<Root>, s': seq<Root>, i: nat, n: nat, b: nat, e: nat, r: Root)
      requires Spaced(s) && Swallowed(s, s', i, n, r) && Hull(s, i, n, b, e, r) && b <= s[i].end && s[i].begin <= e
      ensures forall a :: Covered(s', a) <==> Covered(s, a) || b <= a < e
    {
      forall a ensures Covered(s', a) <==> Covered(s, a) || b <= a < e {
        CoveredAt(s, a);
        assert forall q :: q in s' <==> q in s[..i] || q == r || q in s[i + 1 + n..];
        if r.Has(a) && !(b <= a < e) {
          assert s[i].Has(a) || s[i + n].Has(a);
        }
        if Covered(s, a) {
          var k :| 0 <= k < |s| && s[k].Has(a);
          assert k < i ==> s[..i][k] == s[k];
          assert k > i + n ==> s[i + 1 + n..][k - (i + 1 + n)] == s[k];
          assert i <= k <= i + n ==> r.Has(a);
        }
        assert b <= a < e ==> r.Has(a);
        assert r in s';
        assert forall q :: q in s[..i] || q in s[i + 1 + n..] ==> q in s;
      }
    }

    // One more root leaves the list between i and the rest of s.
    static lemma DropNext(s: seq<Root>, t: seq<Root>, i: nat, n: nat)
      requires i + 1 + n < |s| && t == s[..i + 1] + s[i + 1 + n..]
      ensures t[i + 1] == s[i + 1 + n] && t[..i + 1] + t[i + 2..] == s[..i + 1] + s[i + 1 + (n + 1)..]
    {
    }

    static lemma Dropped(s: seq<Root>, t: seq<Root>, i: nat, n: nat, r: Root)
      requires i + n < |s| && t == s[..i + 1] + s[i + 1 + n..]
      ensures t[i] == s[i] && (i + 1 < |t| ==> t[i + 1] == s[i + 1 + n]) && (i > 0 ==> t[i - 1] == s[i - 1])
      ensures Swallowed(s, t[i := r], i, n, r)
    {
      assert t[i := r] == s[..i] + [r] + s[i + 1 + n..];
    }

    // The end of the root at i moves up to e, past the roots it then meets.
    method Swallow(i: nat, e: nat) returns (freed: nat)
      requires Valid() && i < |list| && list[i].end < e
      modifies this
      ensures Valid() && i < |list| && |list| + freed == old(|list|) && Swallowed(old(list), list, i, freed, list[i])
      ensures Hull(old(list), i, freed, old(list[i].begin), e, list[i])
    {
      hide Total, Valid, Spaced, Hull, Swallowed;
      SpacedFacts();
      freed := 0;
      var end: nat := e;
      HullStart(list, i, e);
      assert list == list[..i + 1] + list[i + 1..];
      while i + 1 < |list| && end >= list[i + 1].begin
        invariant Valid() && i + freed < old(|list|) && list == old(list)[..i + 1] + old(list)[i + 1 + freed..]
        invariant Hull(old(list), i, freed, old(list[i].begin), e, Root(old(list[i].begin), end))
        decreases |list|
      {
        DropNext(old(list), list, i, freed);
        HullStep(old(list), i, freed, e, old(list[i].begin), end);
        if list[i + 1].end >= end {
          end := list[i + 1].end;
        }
        RemoveAt(i + 1);
        freed := freed + 1;
      }
      SpacedFacts();
      HullBounds(old(list), i, freed, old(list[i].begin), e, Root(old(list[i].begin), end));
      Dropped(old(list), list, i, freed, Root(list[i].begin, end));
      SetBounds(i, Root(list[i].begin, end));
    }

    // The root at i meets [b, e): it grows to both sides.
    method Widen(i: nat, b: nat, e: nat) returns (freed: nat)
      requires Valid() && b < e && i < |list| && b <= list[i].end && list[i].begin <= e
      requires forall k :: 0 <= k < i ==> list[k].end < b
      modifies this
      ensures Valid() && |list| + freed == old(|list|)
      ensures forall a :: Covers(a) <==> old(Covers(a)) || b <= a < e
    {
      hide Total, Valid, Spaced, Covered, Hull, Swallowed;
      freed := 0;
      SpacedFacts();
      var r := list[i];
      if b < r.begin {
        r := Root(b, r.end);
        SetBounds(i, r);
      }
      assert list == old(list)[i := r];
      if r.end < e {
        freed := Swallow(i, e);
      } else {
        HullAlready(list, i, e);
      }
      HullGrown(old(list), list, i, freed, b, e, r);
      HullCovers(old(list), list, i, freed, b, e, list[i]);
    }

    static lemma HullAlready(s: seq<Root>, i: nat, e: nat)
      requires i < |s| && e <= s[i].end
      ensures Swallowed(s, s, i, 0, s[i]) && Hull(s, i, 0, s[i].begin, e, s[i])
    {
      assert s == s[..i] + [s[i]] + s[i + 1..];
    }

    // Moving the begin first makes no difference.
    static lemma HullGrown(s: seq<Root>, s': seq<Root>, i: nat, n: nat, b: nat, e: nat, r: Root)
      requires i < |s| && r == Root(if b < s[i].begin then b else s[i].begin, s[i].end) && i < |s'|
      requires Swallowed(s[i := r], s', i, n, s'[i]) && Hull(s[i := r], i, n, r.begin, e, s'[i])
      ensures Swallowed(s, s', i, n, s'[i]) && Hull(s, i, n, b, e, s'[i])
    {
      assert s[i := r][..i] == s[..i] && s[i := r][i + 1 + n..] == s[i + 1 + n..];
      assert forall k :: i < k <= i + n ==> s[i := r][k] == s[k];
    }

    // GC_remove_roots
    method RemoveRoots(low: nat, high: nat) returns (freed: nat)
      requires Valid() && low < w.Modulus() && high < w.Modulus()
      modifies this
      ensures Valid() && |list| + freed == old(|list|)
      ensures var b, e := AlignUp(w, low), AlignDown(w, high);
        forall r :: r in list <==> r in old(list) && !(low != 0 && b < e && r.Inside(b, e))
    {
      freed := 0;
      if low != 0 && AlignUp(w, low) < AlignDown(w, high) {
        freed := DelInside(AlignUp(w, low), AlignDown(w, high));
      }
    }

    // GC_clear_roots: nothing is left but a root that begins at address 0.
    method ClearRoots() returns (freed: nat)
      requires Valid() && forall r :: r in list ==> r.end <= w.Modulus() - w.Bytes()
      modifies this
      ensures Valid() && |list| + freed == old(|list|)
      ensures forall r :: r in list <==> r in old(list) && r.begin < w.Bytes()
    {
      freed := DelInside(w.Bytes(), w.Modulus() - w.Bytes());
    }

    // Roots inside [b, e) cover nothing outside of it.
    static lemma OutsideCovers(s: seq<Root>, s': seq<Root>, b: nat, e: nat)
      requires forall r :: r in s' <==> r in s && !r.Inside(b, e)
      ensures forall a :: Covered(s', a) && !(b <= a < e) <==> Covered(s, a) && !(b <= a < e)
    {
      forall a | Covered(s, a) && !(b <= a < e) ensures Covered(s', a) {
        var r :| r in s && r.Has(a);
        assert r in s';
      }
    }

    // With a root around [b, e) there is none inside.
    static lemma StraddledCovers(s: seq<Root>, s': seq<Root>, b: nat, e: nat, r: Root)
      requires Spaced(s) && (forall q :: q in s' <==> q in s && !q.Inside(b, e))
      requires r in s && r.begin < b < e < r.end
      ensures forall a :: Covered(s', a) <==> Covered(s, a)
    {
      var i :| 0 <= i < |s| && s[i] == r;
      forall k | 0 <= k < |s| ensures !s[k].Inside(b, e) {
        assert k < i ==> s[k].end < s[i].begin;
        assert k > i ==> s[i].end < s[k].begin;
      }
      assert forall q :: q in s ==> q in s';
    }

    // GC_exclude_static_roots: set difference, unless a root would have to be
    // split and there is no memory for the second half; then nothing changes.
    method ExcludeRoots(low: nat, high: nat, room: bool) returns (ok: bool, freed: nat)
      requires Valid() && low < w.Modulus() && high < w.Modulus()
      modifies this
      ensures Valid()
      ensures ok ==> forall a :: Covers(a) <==> old(Covers(a)) && !(low != 0 && AlignUp(w, low) <= a < AlignDown(w, high))
      ensures !ok ==> !room && forall a :: Covers(a) <==> old(Covers(a))
      ensures !ok ==> exists r :: r in old(list) && r.begin < AlignUp(w, low) && AlignDown(w, high) < r.end
    {
      hide Total, Valid, Spaced;
      ok, freed := true, 0;
      var b, e := AlignUp(w, low), AlignDown(w, high);
      if low != 0 && b < e {
        SpacedFacts();
        freed := DelInside(b, e);
        OutsideCovers(old(list), list, b, e);
        SpacedFacts();
        ghost var s := list;
        ok := Exclude(b, e, room);
        if !ok {
          ghost var r :| r in s && r.begin < b && e < r.end;
          StraddledCovers(old(list), s, b, e, r);
        }
      }
    }
  }
}
