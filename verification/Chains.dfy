/**
  Hash tables of the collector are arrays of chains.  A chain is a sequence;
  this module has what is common to all of them: the concatenation of all
  chains and how replacing one chain changes it.
*/
module Chains {

  function Flatten<T>(h: seq<seq<T>>): seq<T> {
    if h == [] then [] else h[0] + Flatten(h[1..])
  }

  // Replacing chain b exchanges exactly that chain's elements.
  lemma {:induction false} FlattenUpdate<T>(h: seq<seq<T>>, b: nat, c: seq<T>)
    requires b < |h|
    ensures multiset(Flatten(h[b := c])) + multiset(h[b]) == multiset(Flatten(h)) + multiset(c)
    ensures |Flatten(h[b := c])| + |h[b]| == |Flatten(h)| + |c|
  {
    if b == 0 {
      assert h[b := c][1..] == h[1..];
    } else {
      assert h[b := c][0] == h[0] && h[b := c][1..] == h[1..][b - 1 := c];
      FlattenUpdate(h[1..], b - 1, c);
      var rest, rest' := multiset(Flatten(h[1..])), multiset(Flatten(h[1..][b - 1 := c]));
      assert multiset(Flatten(h)) == multiset(h[0]) + rest;
      assert multiset(Flatten(h[b := c])) == multiset(h[0]) + rest';
      AddToBoth(multiset(h[0]), rest', multiset(h[b]), rest, multiset(c));
    }
  }

  lemma AddToBoth<T>(m: multiset<T>, a: multiset<T>, b: multiset<T>, c: multiset<T>, d: multiset<T>)
    requires a + b == c + d
    ensures (m + a) + b == (m + c) + d
  {
    assert (m + a) + b == m + (a + b);
    assert m + (c + d) == (m + c) + d;
  }

  lemma {:induction false} InFlatten<T>(h: seq<seq<T>>, x: T)
    ensures x in Flatten(h) <==> exists b :: 0 <= b < |h| && x in h[b]
  {
    if h != [] {
      InFlatten(h[1..], x);
      if x in Flatten(h[1..]) {
        var b :| 0 <= b < |h[1..]| && x in h[1..][b];
        assert x in h[b + 1];
      }
      if exists b :: 0 <= b < |h| && x in h[b] {
        var b :| 0 <= b < |h| && x in h[b];
        if b > 0 {
          assert x in h[1..][b - 1];
        }
      }
    }
  }

  lemma {:induction false} FlattenEmpty<T>(h: seq<seq<T>>)
    requires forall b :: 0 <= b < |h| ==> h[b] == []
    ensures Flatten(h) == []
  {
    if h != [] {
      FlattenEmpty(h[1..]);
    }
  }

  // Sequences hold what their multisets hold.
  lemma MultisetSplit<T>(c: seq<T>, i: nat)
    requires i < |c|
    ensures multiset(c) == multiset(c[..i] + c[i + 1..]) + multiset{c[i]}
  {
    assert c == c[..i] + [c[i]] + c[i + 1..];
  }
}
