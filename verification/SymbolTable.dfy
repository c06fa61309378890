/**
  The symbol intern table of symbol.c, a client of the rank-balanced tree.  The
  tree compares the names of its nodes; here a node has a number for its name
  that orders names in the same way.
*/
module SymbolTable {
  import opened Octets
  import opened Options
  import opened RankBalancedTree

  // MAX_STR_LEN, up to which names are compared
  const LIMIT := 256

  // The characters of a string, without the zero behind them.
  type Name = s: Bytes | 0 !in s witness []

  // The first character of a string, and the rest.
  function First(s: Bytes): nat {
    if s == [] then 0 else s[0]
  }

  function Rest(s: Name): Name {
    if s == [] then [] else s[1..]
  }

  // os_strncmp
  function Compare(a: Name, b: Name, n: nat): int {
    if n == 0 then 0
    else if First(a) != First(b) then First(a) - First(b)
    else if a == [] then 0
    else Compare(Rest(a), Rest(b), n - 1)
  }

  function Pow256(n: nat): (p: nat)
    ensures p > 0
  {
    if n == 0 then 1 else 256 * Pow256(n - 1)
  }

  // The first n characters, filled up with zeros, as the digits of a number.
  function Number(s: Name, n: nat): nat {
    if n == 0 then 0 else First(s) * Pow256(n - 1) + Number(Rest(s), n - 1)
  }

  lemma {:induction false} NumberBelow(s: Name, n: nat)
    ensures Number(s, n) < Pow256(n)
  {
    if n != 0 {
      NumberBelow(Rest(s), n - 1);
      Digit(First(s), 255, Number(Rest(s), n - 1), Pow256(n - 1));
    }
  }

  // A number with a lower first digit is lower.
  lemma Digit(a: nat, b: nat, low: nat, p: nat)
    requires a <= b && low < p
    ensures a * p + low < (b + 1) * p
  {
    assert a * p <= b * p;
  }

  lemma {:induction false} NoName(n: nat)
    ensures Number([], n) == 0
  {
    if n != 0 {
      NoName(n - 1);
    }
  }

  // The numbers are ordered as strncmp orders the names.
  lemma {:induction false} NumbersOrdered(a: Name, b: Name, n: nat)
    ensures Compare(a, b, n) < 0 <==> Number(a, n) < Number(b, n)
    ensures Compare(a, b, n) == 0 <==> Number(a, n) == Number(b, n)
  {
    if n != 0 {
      var p := Pow256(n - 1);
      NumberBelow(Rest(a), n - 1);
      NumberBelow(Rest(b), n - 1);
      if First(a) < First(b) {
        Digit(First(a), First(b) - 1, Number(Rest(a), n - 1), p);
      } else if First(b) < First(a) {
        Digit(First(b), First(a) - 1, Number(Rest(b), n - 1), p);
      } else if a == [] {
        NoName(n);
      } else {
        NumbersOrdered(Rest(a), Rest(b), n - 1);
      }
    }
  }

  // Names that agree up to the limit.
  predicate Same(a: Name, b: Name) {
    Compare(a, b, LIMIT) == 0
  }

  function Cut(s: Bytes, n: nat): Bytes {
    if |s| <= n then s else s[..n]
  }

  lemma {:induction false} ComparedEqual(a: Name, b: Name, n: nat)
    ensures Compare(a, b, n) == 0 <==> Cut(a, n) == Cut(b, n)
  {
    if n != 0 && First(a) == First(b) && a != [] {
      ComparedEqual(Rest(a), Rest(b), n - 1);
      CutFirst(a, n);
      CutFirst(b, n);
    }
  }

  lemma CutFirst(a: Name, n: nat)
    requires a != [] && n > 0
    ensures Cut(a, n) == [a[0]] + Cut(Rest(a), n - 1)
  {
  }

  // The name is in the table, or one that agrees with it up to the limit.
  ghost predicate Interned(table: Tree, name: Name)
    reads table, table.nodes
  {
    Number(name, LIMIT) in table.Keys()
  }

  lemma InternedSame(table: Tree, a: Name, b: Name)
    requires Same(a, b)
    ensures Interned(table, a) <==> Interned(table, b)
  {
    NumbersOrdered(a, b, LIMIT);
  }

  // A node more: the names that agree with its name are interned now.
  twostate lemma OneInterned(table: Tree, new name: Name)
    requires table.Keys() == old(table.Keys()) + {Number(name, LIMIT)}
    ensures forall other :: Interned(table, other) <==> old(Interned(table, other)) || Same(other, name)
  {
    forall other
      ensures Interned(table, other) <==> old(Interned(table, other)) || Same(other, name)
    {
      NumbersOrdered(other, name, LIMIT);
    }
  }

  // make_symbol: look the name up and intern it only when it is missing.  The
  // symbol refers to the string it is made from, at the address given, whatever
  // string was interned under the name.
  method MakeSymbol(table: Tree, name: Name, address: nat) returns (value: nat)
    requires table.Valid()
    modifies table, table.nodes
    ensures table.Valid() && fresh(table.nodes - old(table.nodes))
    ensures forall other :: Interned(table, other) <==> old(Interned(table, other)) || Same(other, name)
    ensures old(Interned(table, name)) ==> table.nodes == old(table.nodes)
    ensures value == address
  {
    hide Number, Compare;
    var ret, _ := table.Find(Number(name, LIMIT));
    if ret == null {
      var node := new Node(Number(name, LIMIT));
      ret := table.Insert(node);
    }
    OneInterned(table, name);
    value := address;
  }

  // symbol_eq on two symbols whose names agree: the second finds the name of the
  // first interned, and they are the same symbol only if they are made from the
  // same string all the same.
  method SameName(table: Tree, first: Name, at: nat, second: Name, at': nat) returns (eq: bool)
    requires table.Valid() && Same(second, first) && Interned(table, first)
    modifies table, table.nodes
    ensures table.Valid() && table.nodes == old(table.nodes)
    ensures eq <==> at == at'
  {
    hide Compare;
    InternedSame(table, second, first);
    var a := MakeSymbol(table, first, at);
    InternedSame(table, second, first);
    var b := MakeSymbol(table, second, at');
    eq := a == b;
  }

  // intern
  method Intern(table: Tree, name: Name)
    requires table.Valid()
    modifies table, table.nodes
    ensures table.Valid() && fresh(table.nodes - old(table.nodes))
    ensures forall other :: Interned(table, other) <==> old(Interned(table, other)) || Same(other, name)
  {
    hide Number, Compare;
    var node := new Node(Number(name, LIMIT));
    var ret := table.Insert(node);
    OneInterned(table, name);
  }

  // The characters before the first zero.
  function Upto(s: Bytes): (n: Name)
    ensures |n| <= |s| && n == s[..|n|] && (|n| < |s| ==> s[|n|] == 0)
  {
    if s == [] || s[0] == 0 then [] else
      var n := Upto(s[1..]);
      [s[0]] + n
  }

  // The string at an offset of the table's bytes, if a zero ends it.
  function StringAt(entry: Bytes, start: nat): Option<Name> {
    if start < |entry| && |Upto(entry[start..])| < |entry| - start then Some(Upto(entry[start..])) else None
  }

  // start += os_strnlen (str, MAX_STR_LEN) + 1, for a 16-bit start
  function Next(start: nat, name: Name): nat {
    (start + (if |name| < LIMIT then |name| else LIMIT) + 1) % 0x1_0000
  }

  // The names create_symbol_table comes by, if it stays within the bytes.
  function Names(entry: Bytes, start: nat, count: nat): Option<seq<Name>>
    decreases count
  {
    if count == 0 then Some([]) else
      match StringAt(entry, start)
      case None => None
      case Some(name) => Prepend([name], Names(entry, Next(start, name), count - 1))
  }

  function Prepend(done: seq<Name>, later: Option<seq<Name>>): Option<seq<Name>> {
    match later
    case None => None
    case Some(names) => Some(done + names)
  }

  lemma PrependMore(done: seq<Name>, name: Name, later: Option<seq<Name>>)
    ensures Prepend(done, Prepend([name], later)) == Prepend(done + [name], later)
    ensures Prepend([], later) == later && Prepend(done, Some([])) == Some(done)
  {
    assert done + [] == done;
    if later.Some? {
      assert done + ([name] + later.value) == done + [name] + later.value;
      assert [] + later.value == later.value;
    }
  }

  // The table as it is written: every name with a zero behind it.
  function Packed(names: seq<Name>): Bytes {
    if names == [] then [] else names[0] + [0] + Packed(names[1..])
  }

  // From offset start on the walk comes to the beginning of every name.
  predicate InPlace(names: seq<Name>, start: nat) {
    |names| <= 1
    || (Next(start, names[0]) == start + |names[0]| + 1 && InPlace(names[1..], start + |names[0]| + 1))
  }

  // Name i begins in the first 2^16 bytes, and the one before it is not longer
  // than the limit.
  predicate Near(names: seq<Name>, start: nat, i: nat)
    requires 0 < i < |names|
  {
    |names[i - 1]| <= LIMIT && start + |Packed(names[..i])| < 0x1_0000
  }

  lemma NearNext(names: seq<Name>, start: nat, i: nat)
    requires 0 < i < |names|
    ensures i == 1 ==> (Near(names, start, i) <==> |names[0]| <= LIMIT && start + |names[0]| + 1 < 0x1_0000)
    ensures i > 1 ==> (Near(names, start, i) <==> Near(names[1..], start + |names[0]| + 1, i - 1))
  {
    assert names[..i][1..] == names[1..][..i - 1];
  }

  // Which it does if and only if all names begin in the first 2^16 bytes and
  // none but the last is longer than the limit.
  lemma {:induction false} PlacesRight(names: seq<Name>, start: nat)
    requires start < 0x1_0000
    ensures InPlace(names, start) <==> forall i :: 0 < i < |names| ==> Near(names, start, i)
    decreases |names|
  {
    hide Near, Packed;
    if |names| > 1 {
      var next := start + |names[0]| + 1;
      forall i | 0 < i < |names|
        ensures i == 1 ==> (Near(names, start, i) <==> |names[0]| <= LIMIT && next < 0x1_0000)
        ensures i > 1 ==> (Near(names, start, i) <==> Near(names[1..], next, i - 1))
      {
        NearNext(names, start, i);
      }
      if next < 0x1_0000 {
        PlacesRight(names[1..], next);
        if forall i :: 0 < i < |names| ==> Near(names, start, i) {
          assert Near(names, start, 1);
          forall j | 0 < j < |names[1..]|
            ensures Near(names[1..], next, j)
          {
            assert Near(names, start, j + 1);
          }
        }
      } else {
        assert !Near(names, start, 1);
      }
    }
  }

  // A walk that keeps to the places reads the names.
  lemma {:induction false} NamesRead(before: Bytes, names: seq<Name>)
    requires InPlace(names, |before|)
    ensures Names(before + Packed(names), |before|, |names|) == Some(names)
    decreases |names|
  {
    hide StringAt, Next, Packed;
    if names != [] {
      var name, rest := names[0], names[1..];
      var entry := before + Packed(names);
      NameRead(before, name, Packed(rest));
      PackedFirst(names);
      assert entry == before + (name + [0] + Packed(rest));
      if rest != [] {
        assert entry == (before + name + [0]) + Packed(rest);
        NamesRead(before + name + [0], rest);
      }
      assert [name] + rest == names;
    }
  }

  const EMPTY: Name := []
  const SHORT: Name := [2]
  const LONG: Name := seq(257, _ => 1)

  // Behind a name of 257 characters it comes by an empty name in place of the
  // next one.
  lemma LongNameStrays()
    ensures Names(Packed([LONG, SHORT]), 0, 2) == Some([LONG, EMPTY])
  {
    hide Upto, Packed, StringAt;
    var names := [LONG, SHORT];
    var entry, rest := Packed(names), Packed(names[1..]);
    PackedFirst(names);
    NameRead([], LONG, rest);
    NameRead(LONG, EMPTY, rest);
    assert entry == [] + (LONG + [0] + rest) == LONG + (EMPTY + [0] + rest);
    assert Next(0, LONG) == 257 == |LONG|;
    OneName(entry, 257, 1);
    OneName(entry, 0, 2);
    assert [EMPTY] + [] == [EMPTY] && [LONG] + [EMPTY] == [LONG, EMPTY];
  }

  lemma OneName(entry: Bytes, start: nat, count: nat)
    requires count > 0 && StringAt(entry, start).Some?
    ensures var name := StringAt(entry, start).value; Names(entry, start, count) == Prepend([name], Names(entry, Next(start, name), count - 1))
    ensures Names(entry, start, 0) == Some([])
  {
  }

  lemma PackedFirst(names: seq<Name>)
    ensures names != [] ==> Packed(names) == names[0] + [0] + Packed(names[1..])
  {
  }

  lemma NameRead(before: Bytes, name: Name, rest: Bytes)
    ensures StringAt(before + (name + [0] + rest), |before|) == Some(name)
  {
    UptoZero(name, rest);
    assert (before + (name + [0] + rest))[|before|..] == name + [0] + rest;
  }

  lemma {:induction false} UptoZero(name: Name, rest: Bytes)
    ensures Upto(name + [0] + rest) == name
  {
    if name != [] {
      assert (name + [0] + rest)[1..] == name[1..] + [0] + rest;
      UptoZero(name[1..], rest);
    }
  }

  // A name of the list agrees with name.
  predicate Listed(names: seq<Name>, name: Name) {
    exists m :: m in names && Same(name, m)
  }

  // create_symbol_table: the names the walk comes by are interned; the table of
  // bytes is read beyond its end exactly if one of them has no zero behind it.
  method CreateSymbolTable(table: Tree, entry: Bytes, count: nat) returns (ok: bool)
    requires table.Valid()
    modifies table, table.nodes
    ensures table.Valid() && fresh(table.nodes - old(table.nodes))
    ensures ok <==> Names(entry, 0, count).Some?
    ensures ok ==> forall other :: Interned(table, other) <==> old(Interned(table, other)) || Listed(Names(entry, 0, count).value, other)
  {
    hide Interned, Same, StringAt, Next;
    ok := true;
    var start := 0;
    ghost var done: seq<Name> := [];
    var i := 0;
    PrependMore([], [], Names(entry, 0, count));
    while i < count && ok
      invariant table.Valid() && fresh(table.nodes - old(table.nodes)) && i <= count
      invariant ok ==> forall other :: Interned(table, other) <==> old(Interned(table, other)) || Listed(done, other)
      invariant Names(entry, 0, count) == if ok then Prepend(done, Names(entry, start, count - i)) else None
    {
      var name := StringAt(entry, start);
      if name == None {
        ok := false;
      } else {
        Intern(table, name.value);
        ghost var next := Next(start, name.value);
        PrependMore(done, name.value, Names(entry, next, count - i - 1));
        done := done + [name.value];
        start := Next(start, name.value);
      }
      i := i + 1;
    }
    PrependMore(done, [], None);
  }

  // clean_symbol_table: take the least node until the table is empty.  Each
  // round leaves a balanced tree with one node fewer.
  method CleanSymbolTable(table: Tree)
    requires table.Valid()
    modifies table, table.nodes
    ensures table.Valid() && table.root == null && table.nodes == {}
  {
    if table.root == null {
      return;
    }
    var node := table.MinMax(-1);
    while node != null
      invariant table.Valid() && table.nodes <= old(table.nodes)
      invariant node == if table.order == [] then null else table.order[0]
      decreases |table.nodes|
    {
      assert table.order[0] in table.nodes;
      table.Remove(node);
      node := table.MinMax(-1);
    }
    assert table.root != null ==> table.Linked(table.root);
  }
}
