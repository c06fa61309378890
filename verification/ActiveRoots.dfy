/**
  The order of the tree of active roots in gc.c: the comparator of
  inc/obg_gc.h takes the difference of two addresses for an int.
*/
module ActiveRoots {
  import opened Words

  // active_root_compare
  function Compare(a: nat, b: nat): Int32 {
    ToInt32(b - a)
  }

  // The tree compares keys that are numbers; higher addresses go to the left.
  predicate AgreesWithKeys(a: nat, b: nat) {
    && (Compare(a, b) < 0 <==> b < a)
    && (Compare(a, b) == 0 <==> a == b)
  }

  // For addresses of any width: the comparator orders two of them as the keys
  // are ordered exactly if the low 32 bits of their distance are a positive int.
  lemma OrderKept(a: nat, b: nat)
    requires a < b
    ensures AgreesWithKeys(a, b) && AgreesWithKeys(b, a) <==> 0 < (b - a) % 0x1_0000_0000 < 0x8000_0000
  {
    Negated(b - a);
  }

  lemma Negated(x: int)
    ensures x % 0x1_0000_0000 != 0x8000_0000 ==> ToInt32(-x) == -(ToInt32(x) as int)
    ensures ToInt32(x) > 0 <==> 0 < x % 0x1_0000_0000 < 0x8000_0000
    ensures ToInt32(x) == 0 <==> x % 0x1_0000_0000 == 0
  {
  }

  predicate Nearby(s: set<nat>) {
    forall a, b :: a in s && b in s ==> b < a + 0x8000_0000
  }

  predicate Ordered(s: set<nat>) {
    forall a, b :: a in s && b in s ==> AgreesWithKeys(a, b)
  }

  // So on addresses less than 2^31 bytes apart it is the order the tree needs,
  // and with 32 bits on no others.
  lemma OrderNearby(s: set<nat>)
    ensures Nearby(s) ==> Ordered(s)
    ensures (forall a :: a in s ==> a < 0x1_0000_0000) && Ordered(s) ==> Nearby(s)
  {
    hide AgreesWithKeys;
    forall a, b | a in s && b in s
      ensures b < a + 0x8000_0000 && a < b + 0x8000_0000 ==> AgreesWithKeys(a, b)
      ensures a < 0x1_0000_0000 && b < 0x1_0000_0000 && AgreesWithKeys(a, b) && AgreesWithKeys(b, a) ==> b < a + 0x8000_0000
    {
      OrderOfTwo(a, b);
    }
  }

  lemma OrderOfTwo(a: nat, b: nat)
    ensures b < a + 0x8000_0000 && a < b + 0x8000_0000 ==> AgreesWithKeys(a, b)
    ensures a < 0x1_0000_0000 && b < 0x1_0000_0000 && AgreesWithKeys(a, b) && AgreesWithKeys(b, a) ==> b < a + 0x8000_0000
  {
    hide AgreesWithKeys;
    if a < b {
      OrderKept(a, b);
    } else if b < a {
      OrderKept(b, a);
    } else {
      SameAddress(a);
    }
  }

  lemma SameAddress(a: nat)
    ensures AgreesWithKeys(a, a)
  {
  }

  // Elsewhere it is no order: three addresses each of which comes before the
  // next, and two with 64 bits that it takes for one.
  lemma NoOrder()
    ensures Compare(0, 0x6000_0000) > 0 && Compare(0x6000_0000, 0xC000_0000) > 0 && Compare(0xC000_0000, 0) > 0
    ensures Compare(0x10_0000, 0x1_0010_0000) == 0
  {
  }
}
