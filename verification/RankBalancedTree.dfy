/**
  The rank-balanced ("weak-AVL") tree of inc/rbtree.h: nodes with parent
  pointers, whose "red" bits say that the rank drops by two across an edge.

  The rank itself is not stored by the program.  Here it is the ghost field
  `rank`, with null at rank -1 and every leaf at rank 0.  A second ghost device
  replaces recursive tree predicates: `order` is the in-order sequence of the
  nodes, and every node knows its own position `mid` and the slice
  `[first, last)` of `order` that its subtree occupies.  All of the shape is
  then a statement about a node and its immediate neighbours.
*/
module RankBalancedTree {
  import Words

  class Node {
    const key: int
    var left: Node?
    var right: Node?
    var up: Node?
    var redLeft: bool
    var redRight: bool
    ghost var rank: int
    ghost var first: int
    ghost var mid: int
    ghost var last: int

    constructor (key: int)
      ensures this.key == key
    {
      this.key := key;
      left, right, up := null, null, null;
      redLeft, redRight := false, false;
    }
  }

  ghost function Opt(n: Node?): set<Node> {
    if n == null then {} else {n}
  }

  ghost function RankOf(n: Node?): int
    reads Opt(n)`rank
  {
    if n == null then -1 else n.rank
  }

  ghost function Drop(red: bool): int {
    if red then 2 else 1
  }

  class Tree {
    var root: Node?
    ghost var nodes: set<Node>
    ghost var order: seq<Node>

    ghost predicate PlaceOk(n: Node)
      reads this`order, n`first, n`mid, n`last
    {
      0 <= n.first <= n.mid < n.last <= |order| && order[n.mid] == n
    }

    ghost predicate LeftOk(n: Node)
      reads this`nodes, n`left, n`first, n`mid, Opt(n.left)`up, Opt(n.left)`first, Opt(n.left)`last
    {
      if n.left == null then n.first == n.mid
      else n.left in nodes && n.left.up == n && n.left.first == n.first && n.left.last == n.mid
    }

    ghost predicate RightOk(n: Node)
      reads this`nodes, n`right, n`mid, n`last, Opt(n.right)`up, Opt(n.right)`first, Opt(n.right)`last
    {
      if n.right == null then n.mid + 1 == n.last
      else n.right in nodes && n.right.up == n && n.right.first == n.mid + 1 && n.right.last == n.last
    }

    ghost predicate UpOk(n: Node)
      reads this`nodes, this`root, n`up, Opt(n.up)`left, Opt(n.up)`right
    {
      if n.up == null then n == root
      else n.up in nodes && (n.up.left == n || n.up.right == n)
    }

    ghost predicate Linked(n: Node)
      reads this, n`left, n`right, n`up, n`first, n`mid, n`last
      reads Opt(n.left)`up, Opt(n.left)`first, Opt(n.left)`last
      reads Opt(n.right)`up, Opt(n.right)`first, Opt(n.right)`last
      reads Opt(n.up)`left, Opt(n.up)`right
    {
      PlaceOk(n) && LeftOk(n) && RightOk(n) && UpOk(n)
    }

    ghost predicate Sorted()
      reads this`order
    {
      forall i, j :: 0 <= i < j < |order| ==> order[i].key < order[j].key
    }

    ghost predicate Rooted()
      reads this, Opt(root)`first, Opt(root)`last, Opt(root)`up
    {
      if root == null then nodes == {} && order == []
      else root in nodes && root.first == 0 && root.last == |order| && root.up == null
    }

    ghost predicate Closed()
      reads this`nodes, nodes`left, nodes`right, nodes`up
    {
      && (forall n {:trigger n.left} :: n in nodes ==> n.left == null || n.left in nodes)
      && (forall n {:trigger n.right} :: n in nodes ==> n.right == null || n.right in nodes)
      && (forall n {:trigger n.up} :: n in nodes ==> n.up == null || n.up in nodes)
    }

    // A search tree with consistent child and parent pointers.
    ghost predicate Shape()
      reads this, nodes`left, nodes`right, nodes`up, nodes`first, nodes`mid, nodes`last
    {
      && Closed()
      && (forall i :: 0 <= i < |order| ==> order[i] in nodes)
      && (forall n {:trigger Linked(n)} :: n in nodes ==> Linked(n))
      && Sorted()
      && (root == null || root in nodes)
      && Rooted()
    }

    // The weak-AVL rule at one node: both edges drop the rank by one (bit
    // clear) or two (bit set), and a leaf has rank 0, hence two clear bits.
    ghost predicate Ranked(n: Node)
      reads n`left, n`right, n`redLeft, n`redRight, n`rank, Opt(n.left)`rank, Opt(n.right)`rank
    {
      && RankOf(n.left) >= -1 && RankOf(n.right) >= -1
      && n.rank == RankOf(n.left) + Drop(n.redLeft)
      && n.rank == RankOf(n.right) + Drop(n.redRight)
      && (n.left == null && n.right == null ==> n.rank == 0)
    }

    ghost predicate Valid()
      reads this, nodes
    {
      Shape() && forall n {:trigger Ranked(n)} :: n in nodes ==> Ranked(n)
    }

    // The keys the tree holds, as a set.
    ghost function Keys(): set<int>
      reads this
    {
      set n | n in nodes :: n.key
    }

    constructor ()
      ensures Valid() && nodes == {}
    {
      root := null;
      nodes := {};
      order := [];
    }

    // RB_SWAP_CHILD
    method SwapChild(out: Node, in_: Node?)
      requires out.up != null ==> out.up.left == out || out.up.right == out
      modifies this`root, (if out.up == null then {} else {out.up})`left, (if out.up == null then {} else {out.up})`right
      ensures if out.up == null then root == in_ else root == old(root)
      ensures out.up != null && out != out.up ==>
        if old(out.up.left) == out
        then out.up.left == in_ && out.up.right == old(out.up.right)
        else out.up.right == in_ && out.up.left == old(out.up.left)
    {
      if out.up == null {
        root := in_;
      } else if out == out.up.left {
        out.up.left := in_;
      } else {
        out.up.right := in_;
      }
    }

    lemma ClosedFromLinked()
      requires forall n {:trigger Linked(n)} :: n in nodes ==> Linked(n)
      ensures Closed()
    {
      forall n | n in nodes
        ensures n.left == null || n.left in nodes
        ensures n.right == null || n.right in nodes
        ensures n.up == null || n.up in nodes
      {
        assert Linked(n);
      }
    }

    // What a left rotation at elm does to the links and to nothing else.
    twostate predicate RotatedLeft(elm: Node, new tmp: Node)
      requires old(allocated(tmp))
      requires nodes == old(nodes)
      reads this, nodes`left, nodes`right, nodes`up, nodes`first, nodes`mid, nodes`last
      reads elm`left, elm`right, elm`up, elm`first, elm`last, tmp`left, tmp`right, tmp`up, tmp`first, tmp`last
    {
      var child, p := old(tmp.left), old(elm.up);
      && elm.left == old(elm.left) && elm.right == child && elm.up == tmp
      && tmp.left == elm && tmp.right == old(tmp.right) && tmp.up == p
      && tmp.first == old(elm.first) && tmp.last == old(tmp.last)
      && elm.first == old(elm.first) && elm.last == old(tmp.mid)
      && (child != null ==> child in nodes && child.up == elm)
      && (if p == null then root == tmp
          else && root == old(root)
               && p in nodes
               && p.left == (if old(p.left) == elm then tmp else old(p.left))
               && p.right == (if old(p.right) == elm then tmp else old(p.right)))
      && (forall n {:trigger n.left} :: n in nodes && n != elm && n != tmp && n != p ==> n.left == old(n.left))
      && (forall n {:trigger n.right} :: n in nodes && n != elm && n != tmp && n != p ==> n.right == old(n.right))
      && (forall n {:trigger n.up} :: n in nodes && n != elm && n != tmp && n != child ==> n.up == old(n.up))
      && (forall n {:trigger n.first} :: n in nodes && n != elm && n != tmp ==> n.first == old(n.first))
      && (forall n {:trigger n.last} :: n in nodes && n != elm && n != tmp ==> n.last == old(n.last))
      && (forall n {:trigger n.mid} :: n in nodes ==> n.mid == old(n.mid))
    }

    twostate lemma RotatedLeftOther(elm: Node, new tmp: Node, new n: Node)
      requires nodes == old(nodes) && order == old(order)
      requires old(allocated(tmp))
      requires old(Shape()) && elm in nodes && tmp in nodes && tmp == old(elm.right)
      requires RotatedLeft(elm, tmp)
      requires n in nodes && n != elm && n != tmp && n != old(elm.up)
      ensures Linked(n)
    {
      assert old(Linked(elm)) && old(Linked(tmp)) && old(Linked(n));
      assert LeftOk(n) by { if old(n.left) != null { assert old(Linked(n.left)); } }
      assert RightOk(n) by { if old(n.right) != null { assert old(Linked(n.right)); } }
      assert UpOk(n) by { if old(n.up) != null { assert old(Linked(n.up)); } }
    }

    twostate lemma RotatedLeftUp(elm: Node, new tmp: Node, new n: Node)
      requires nodes == old(nodes) && order == old(order)
      requires old(allocated(tmp))
      requires old(Shape()) && elm in nodes && tmp in nodes && tmp == old(elm.right)
      requires RotatedLeft(elm, tmp)
      requires n in nodes && n == old(elm.up)
      ensures Linked(n)
    {
      assert old(Linked(elm)) && old(Linked(tmp)) && old(Linked(n));
      assert LeftOk(n) by { if old(n.left) != null { assert old(Linked(n.left)); } }
      assert RightOk(n) by { if old(n.right) != null { assert old(Linked(n.right)); } }
      assert UpOk(n) by { if old(n.up) != null { assert old(Linked(n.up)); } }
    }

    twostate lemma RotatedLeftElm(elm: Node, new tmp: Node)
      requires nodes == old(nodes) && order == old(order)
      requires old(allocated(tmp))
      requires old(Shape()) && elm in nodes && tmp in nodes && tmp == old(elm.right)
      requires RotatedLeft(elm, tmp)
      ensures Linked(elm)
    {
      assert old(Linked(elm)) && old(Linked(tmp));
      assert LeftOk(elm) by { if old(elm.left) != null { assert old(Linked(elm.left)); } }
      assert RightOk(elm) by { if old(tmp.left) != null { assert old(Linked(tmp.left)); } }
    }

    twostate lemma RotatedLeftTmp(elm: Node, new tmp: Node)
      requires nodes == old(nodes) && order == old(order)
      requires old(allocated(tmp))
      requires old(Shape()) && elm in nodes && tmp in nodes && tmp == old(elm.right)
      requires RotatedLeft(elm, tmp)
      ensures Linked(tmp)
    {
      assert old(Linked(elm)) && old(Linked(tmp));
      assert RightOk(tmp) by { if old(tmp.right) != null { assert old(Linked(tmp.right)); } }
      assert UpOk(tmp) by { if old(elm.up) != null { assert old(Linked(elm.up)); } }
    }

    twostate lemma RotatedLeftLinked(elm: Node, new tmp: Node, new n: Node)
      requires nodes == old(nodes) && order == old(order)
      requires old(allocated(tmp))
      requires old(Shape()) && elm in nodes && tmp in nodes && tmp == old(elm.right)
      requires RotatedLeft(elm, tmp)
      requires n in nodes
      ensures Linked(n)
    {
      if n == elm {
        RotatedLeftElm(elm, tmp);
      } else if n == tmp {
        RotatedLeftTmp(elm, tmp);
      } else if n == old(elm.up) {
        RotatedLeftUp(elm, tmp, n);
      } else {
        RotatedLeftOther(elm, tmp, n);
      }
    }

    twostate lemma RotatedLeftShape(elm: Node, new tmp: Node)
      requires nodes == old(nodes) && order == old(order)
      requires old(allocated(tmp))
      requires old(Shape()) && elm in nodes && tmp in nodes && tmp == old(elm.right)
      requires RotatedLeft(elm, tmp)
      ensures Shape()
    {
      forall n | n in nodes
        ensures Linked(n)
      {
        RotatedLeftLinked(elm, tmp, n);
      }
      ClosedFromLinked();
      assert Rooted() by {
        assert old(Linked(elm)) && old(Linked(tmp));
      }
    }

    // RB_ROTATE_LEFT: tmp = elm.right takes the place of elm.
    method RotateLeftLinks(elm: Node) returns (tmp: Node)
      requires elm in nodes && elm.right != null && elm.right in nodes && elm.right != elm
      requires var c := elm.right.left; c != null ==> c in nodes && c != elm && c != elm.right
      requires var p := elm.up; p != null ==>
        p in nodes && p != elm && p != elm.right && p != elm.right.left && (p.left == elm || p.right == elm) && p.left != p.right
      modifies this`root, nodes`left, nodes`right, nodes`up, nodes`first, nodes`last
      ensures tmp == old(elm.right)
      ensures RotatedLeft(elm, tmp)
    {
      tmp := elm.right;
      elm.right := tmp.left;
      if elm.right != null {
        elm.right.up := elm;
      }
      tmp.up := elm.up;
      SwapChild(elm, tmp);
      tmp.left := elm;
      elm.up := tmp;
      tmp.first := elm.first;
      elm.last := tmp.mid;
    }

    method RotateLeft(elm: Node) returns (tmp: Node)
      requires Shape() && elm in nodes && elm.right != null
      modifies this`root, nodes`left, nodes`right, nodes`up, nodes`first, nodes`last
      ensures Shape() && tmp == old(elm.right)
      ensures RotatedLeft(elm, tmp)
    {
      tmp := elm.right;
      assert Linked(elm) && Linked(tmp);
      assert elm.up != null ==> Linked(elm.up);
      assert tmp.left != null ==> Linked(tmp.left);
      tmp := RotateLeftLinks(elm);
      RotatedLeftShape(elm, tmp);
    }

    // What a right rotation at elm does to the links and to nothing else.
    twostate predicate RotatedRight(elm: Node, new tmp: Node)
      requires old(allocated(tmp))
      requires nodes == old(nodes)
      reads this, nodes`right, nodes`left, nodes`up, nodes`first, nodes`mid, nodes`last
      reads elm`right, elm`left, elm`up, elm`first, elm`last, tmp`right, tmp`left, tmp`up, tmp`first, tmp`last
    {
      var child, p := old(tmp.right), old(elm.up);
      && elm.right == old(elm.right) && elm.left == child && elm.up == tmp
      && tmp.right == elm && tmp.left == old(tmp.left) && tmp.up == p
      && tmp.first == old(tmp.first) && tmp.last == old(elm.last)
      && elm.first == old(tmp.mid) + 1 && elm.last == old(elm.last)
      && (child != null ==> child in nodes && child.up == elm)
      && (if p == null then root == tmp
          else && root == old(root)
               && p in nodes
               && p.right == (if old(p.right) == elm then tmp else old(p.right))
               && p.left == (if old(p.left) == elm then tmp else old(p.left)))
      && (forall n {:trigger n.right} :: n in nodes && n != elm && n != tmp && n != p ==> n.right == old(n.right))
      && (forall n {:trigger n.left} :: n in nodes && n != elm && n != tmp && n != p ==> n.left == old(n.left))
      && (forall n {:trigger n.up} :: n in nodes && n != elm && n != tmp && n != child ==> n.up == old(n.up))
      && (forall n {:trigger n.first} :: n in nodes && n != elm && n != tmp ==> n.first == old(n.first))
      && (forall n {:trigger n.last} :: n in nodes && n != elm && n != tmp ==> n.last == old(n.last))
      && (forall n {:trigger n.mid} :: n in nodes ==> n.mid == old(n.mid))
    }

    twostate lemma RotatedRightOther(elm: Node, new tmp: Node, new n: Node)
      requires nodes == old(nodes) && order == old(order)
      requires old(allocated(tmp))
      requires old(Shape()) && elm in nodes && tmp in nodes && tmp == old(elm.left)
      requires RotatedRight(elm, tmp)
      requires n in nodes && n != elm && n != tmp && n != old(elm.up)
      ensures Linked(n)
    {
      assert old(Linked(elm)) && old(Linked(tmp)) && old(Linked(n));
      assert RightOk(n) by { if old(n.right) != null { assert old(Linked(n.right)); } }
      assert LeftOk(n) by { if old(n.left) != null { assert old(Linked(n.left)); } }
      assert UpOk(n) by { if old(n.up) != null { assert old(Linked(n.up)); } }
    }

    twostate lemma RotatedRightUp(elm: Node, new tmp: Node, new n: Node)
      requires nodes == old(nodes) && order == old(order)
      requires old(allocated(tmp))
      requires old(Shape()) && elm in nodes && tmp in nodes && tmp == old(elm.left)
      requires RotatedRight(elm, tmp)
      requires n in nodes && n == old(elm.up)
      ensures Linked(n)
    {
      assert old(Linked(elm)) && old(Linked(tmp)) && old(Linked(n));
      assert RightOk(n) by { if old(n.right) != null { assert old(Linked(n.right)); } }
      assert LeftOk(n) by { if old(n.left) != null { assert old(Linked(n.left)); } }
      assert UpOk(n) by { if old(n.up) != null { assert old(Linked(n.up)); } }
    }

    twostate lemma RotatedRightElm(elm: Node, new tmp: Node)
      requires nodes == old(nodes) && order == old(order)
      requires old(allocated(tmp))
      requires old(Shape()) && elm in nodes && tmp in nodes && tmp == old(elm.left)
      requires RotatedRight(elm, tmp)
      ensures Linked(elm)
    {
      assert old(Linked(elm)) && old(Linked(tmp));
      assert RightOk(elm) by { if old(elm.right) != null { assert old(Linked(elm.right)); } }
      assert LeftOk(elm) by { if old(tmp.right) != null { assert old(Linked(tmp.right)); } }
    }

    twostate lemma RotatedRightTmp(elm: Node, new tmp: Node)
      requires nodes == old(nodes) && order == old(order)
      requires old(allocated(tmp))
      requires old(Shape()) && elm in nodes && tmp in nodes && tmp == old(elm.left)
      requires RotatedRight(elm, tmp)
      ensures Linked(tmp)
    {
      assert old(Linked(elm)) && old(Linked(tmp));
      assert LeftOk(tmp) by { if old(tmp.left) != null { assert old(Linked(tmp.left)); } }
      assert UpOk(tmp) by { if old(elm.up) != null { assert old(Linked(elm.up)); } }
    }

    twostate lemma RotatedRightLinked(elm: Node, new tmp: Node, new n: Node)
      requires nodes == old(nodes) && order == old(order)
      requires old(allocated(tmp))
      requires old(Shape()) && elm in nodes && tmp in nodes && tmp == old(elm.left)
      requires RotatedRight(elm, tmp)
      requires n in nodes
      ensures Linked(n)
    {
      if n == elm {
        RotatedRightElm(elm, tmp);
      } else if n == tmp {
        RotatedRightTmp(elm, tmp);
      } else if n == old(elm.up) {
        RotatedRightUp(elm, tmp, n);
      } else {
        RotatedRightOther(elm, tmp, n);
      }
    }

    twostate lemma RotatedRightShape(elm: Node, new tmp: Node)
      requires nodes == old(nodes) && order == old(order)
      requires old(allocated(tmp))
      requires old(Shape()) && elm in nodes && tmp in nodes && tmp == old(elm.left)
      requires RotatedRight(elm, tmp)
      ensures Shape()
    {
      forall n | n in nodes
        ensures Linked(n)
      {
        RotatedRightLinked(elm, tmp, n);
      }
      ClosedFromLinked();
      assert Rooted() by {
        assert old(Linked(elm)) && old(Linked(tmp));
      }
    }

    // RB_ROTATE_RIGHT: tmp = elm.left takes the place of elm.
    method RotateRightLinks(elm: Node) returns (tmp: Node)
      requires elm in nodes && elm.left != null && elm.left in nodes && elm.left != elm
      requires var c := elm.left.right; c != null ==> c in nodes && c != elm && c != elm.left
      requires var p := elm.up; p != null ==>
        p in nodes && p != elm && p != elm.left && p != elm.left.right && (p.right == elm || p.left == elm) && p.right != p.left
      modifies this`root, nodes`right, nodes`left, nodes`up, nodes`first, nodes`last
      ensures tmp == old(elm.left)
      ensures RotatedRight(elm, tmp)
    {
      tmp := elm.left;
      elm.left := tmp.right;
      if elm.left != null {
        elm.left.up := elm;
      }
      tmp.up := elm.up;
      SwapChild(elm, tmp);
      tmp.right := elm;
      elm.up := tmp;
      tmp.last := elm.last;
      elm.first := tmp.mid + 1;
    }

    method RotateRight(elm: Node) returns (tmp: Node)
      requires Shape() && elm in nodes && elm.left != null
      modifies this`root, nodes`right, nodes`left, nodes`up, nodes`first, nodes`last
      ensures Shape() && tmp == old(elm.left)
      ensures RotatedRight(elm, tmp)
    {
      tmp := elm.left;
      assert Linked(elm) && Linked(tmp);
      assert elm.up != null ==> Linked(elm.up);
      assert tmp.right != null ==> Linked(tmp.right);
      tmp := RotateRightLinks(elm);
      RotatedRightShape(elm, tmp);
    }

    // All of p's children are where the bits of p say, except that elm is d
    // ranks further down than the bit on its edge shows.
    ghost predicate Lag(p: Node, elm: Node?, d: int)
      reads p`left, p`right, p`redLeft, p`redRight, p`rank, Opt(p.left)`rank, Opt(p.right)`rank
    {
      && RankOf(p.left) >= -1 && RankOf(p.right) >= -1
      && p.rank == RankOf(p.left) + Drop(p.redLeft) + (if p.left == elm then d else 0)
      && p.rank == RankOf(p.right) + Drop(p.redRight) + (if p.right == elm then d else 0)
    }

    ghost predicate RankedBut(p: Node?, q: Node?)
      reads this`nodes, nodes`left, nodes`right, nodes`redLeft, nodes`redRight, nodes`rank, nodes`up
      requires Closed()
    {
      forall n {:trigger Ranked(n)} :: n in nodes && n != p && n != q ==> Ranked(n)
    }

    // A left turn at elm is not noticed by any node that does not point at the
    // pair, and not by the parent either when tmp ends at elm's old rank.
    twostate lemma RankedAfterRotateLeft(elm: Node, new tmp: Node, new n: Node)
      requires nodes == old(nodes) && old(allocated(tmp)) && old(allocated(n))
      requires old(Shape()) && elm in nodes && tmp in nodes && tmp == old(elm.right)
      requires RotatedLeft(elm, tmp)
      requires n in nodes && n != elm && n != tmp && old(Ranked(n))
      requires n.redLeft == old(n.redLeft) && n.redRight == old(n.redRight)
      requires n == old(elm.up) ==> tmp.rank == old(elm.rank)
      requires forall m {:trigger m.rank} :: m in nodes && m != elm && m != tmp ==> m.rank == old(m.rank)
      ensures Ranked(n)
    {
      assert old(Linked(elm)) && old(Linked(tmp)) && old(Linked(n));
    }

    // A right turn at elm is not noticed by any node that does not point at the
    // pair, and not by the parent either when tmp ends at elm's old rank.
    twostate lemma RankedAfterRotateRight(elm: Node, new tmp: Node, new n: Node)
      requires nodes == old(nodes) && old(allocated(tmp)) && old(allocated(n))
      requires old(Shape()) && elm in nodes && tmp in nodes && tmp == old(elm.left)
      requires RotatedRight(elm, tmp)
      requires n in nodes && n != elm && n != tmp && old(Ranked(n))
      requires n.redRight == old(n.redRight) && n.redLeft == old(n.redLeft)
      requires n == old(elm.up) ==> tmp.rank == old(elm.rank)
      requires forall m {:trigger m.rank} :: m in nodes && m != elm && m != tmp ==> m.rank == old(m.rank)
      ensures Ranked(n)
    {
      assert old(Linked(elm)) && old(Linked(tmp)) && old(Linked(n));
    }

    // The last rotation of a repair: top, the right child, takes over parent's
    // place and rank, and parent sinks to rank q.
    ghost predicate TurnReadyLeft(parent: Node, top: Node, q: int)
      reads this, nodes
    {
      && Shape() && parent in nodes && top in nodes && parent.right == top
      && RankedBut(parent, top)
      && RankOf(parent.left) >= -1 && RankOf(top.left) >= -1 && RankOf(top.right) >= -1
      && q == RankOf(parent.left) + Drop(parent.redLeft) == RankOf(top.left) + Drop(parent.redRight)
      && (parent.left == null && top.left == null ==> q == 0)
    }

    twostate lemma TurnedLeftRanks(parent: Node, new top: Node, new q: int)
      requires nodes == old(nodes) && old(allocated(top))
      requires old(TurnReadyLeft(parent, top, q)) && parent in nodes && top in nodes
      requires Shape() && RotatedLeft(parent, top)
      requires parent.rank == q && top.rank == old(parent.rank)
      requires top.rank == q + Drop(top.redLeft) == RankOf(top.right) + Drop(top.redRight)
      requires unchanged(nodes`redLeft, nodes`redRight)
      requires forall m {:trigger m.rank} :: m in nodes && m != parent && m != top ==> m.rank == old(m.rank)
      ensures Valid()
    {
      assert old(Linked(top)) && old(Linked(parent));
      forall n | n in nodes ensures Ranked(n) {
        if n != parent && n != top {
          assert old(Ranked(n));
          RankedAfterRotateLeft(parent, top, n);
        }
      }
    }

    method TurnLeft(parent: Node, top: Node, ghost q: int)
      requires TurnReadyLeft(parent, top, q)
      requires parent.rank == q + Drop(top.redLeft) == RankOf(top.right) + Drop(top.redRight)
      modifies this`root, nodes`left, nodes`right, nodes`up, nodes`first, nodes`last, nodes`rank
      ensures Valid()
    {
      hide Sorted, Rooted, Closed;
      assert top != parent && (top.right != null ==> top.right != parent && top.right != top) by {
        assert Linked(top) && Linked(parent);
      }
      var _ := RotateLeft(parent);
      parent.rank, top.rank := q, parent.rank;
      TurnedLeftRanks(parent, top, q);
    }

    // The last rotation of a repair: top, the left child, takes over parent's
    // place and rank, and parent sinks to rank q.
    ghost predicate TurnReadyRight(parent: Node, top: Node, q: int)
      reads this, nodes
    {
      && Shape() && parent in nodes && top in nodes && parent.left == top
      && RankedBut(parent, top)
      && RankOf(parent.right) >= -1 && RankOf(top.right) >= -1 && RankOf(top.left) >= -1
      && q == RankOf(parent.right) + Drop(parent.redRight) == RankOf(top.right) + Drop(parent.redLeft)
      && (parent.right == null && top.right == null ==> q == 0)
    }

    twostate lemma TurnedRightRanks(parent: Node, new top: Node, new q: int)
      requires nodes == old(nodes) && old(allocated(top))
      requires old(TurnReadyRight(parent, top, q)) && parent in nodes && top in nodes
      requires Shape() && RotatedRight(parent, top)
      requires parent.rank == q && top.rank == old(parent.rank)
      requires top.rank == q + Drop(top.redRight) == RankOf(top.left) + Drop(top.redLeft)
      requires unchanged(nodes`redRight, nodes`redLeft)
      requires forall m {:trigger m.rank} :: m in nodes && m != parent && m != top ==> m.rank == old(m.rank)
      ensures Valid()
    {
      assert old(Linked(top)) && old(Linked(parent));
      forall n | n in nodes ensures Ranked(n) {
        if n != parent && n != top {
          assert old(Ranked(n));
          RankedAfterRotateRight(parent, top, n);
        }
      }
    }

    method TurnRight(parent: Node, top: Node, ghost q: int)
      requires TurnReadyRight(parent, top, q)
      requires parent.rank == q + Drop(top.redRight) == RankOf(top.left) + Drop(top.redLeft)
      modifies this`root, nodes`right, nodes`left, nodes`up, nodes`first, nodes`last, nodes`rank
      ensures Valid()
    {
      hide Sorted, Rooted, Closed;
      assert top != parent && (top.left != null ==> top.left != parent && top.left != top) by {
        assert Linked(top) && Linked(parent);
      }
      var _ := RotateRight(parent);
      parent.rank, top.rank := q, parent.rank;
      TurnedRightRanks(parent, top, q);
    }

    // A node that was just attached, or promoted because one child was: never
    // two red edges, neither on itself nor on the child that pushed it up.
    ghost predicate JustRisen(elm: Node)
      reads elm`left, elm`right, elm`redLeft, elm`redRight, elm`rank
      reads Opt(elm.left)`redLeft, Opt(elm.left)`redRight, Opt(elm.right)`redLeft, Opt(elm.right)`redRight
    {
      && !(elm.redLeft && elm.redRight)
      && (elm.rank == 0 || elm.redLeft || elm.redRight)
      && (elm.redLeft && elm.right != null ==> !(elm.right.redLeft && elm.right.redRight))
      && (elm.redRight && elm.left != null ==> !(elm.left.redLeft && elm.left.redRight))
    }

    // Before the inner rotation: elm has risen to parent's rank, and its own
    // right child is the node that pushed it there.
    ghost predicate InnerReadyLeft(parent: Node, elm: Node)
      reads this, nodes
    {
      && Shape() && parent in nodes && elm in nodes && parent.left == elm && elm.right != null
      && RankedBut(parent, elm)
      && parent.rank == elm.rank == RankOf(elm.left) + 2 == elm.right.rank + 1
      && RankOf(elm.left) >= -1 && RankOf(parent.right) >= -1
      && parent.rank == RankOf(parent.right) + 2
      && !(elm.right.redLeft && elm.right.redRight)
    }

    twostate lemma InsertInnerLeftRanks(parent: Node, new elm: Node, new child: Node)
      requires nodes == old(nodes) && old(allocated(elm)) && old(allocated(child))
      requires old(InnerReadyLeft(parent, elm)) && parent in nodes && elm in nodes && child in nodes && child == old(elm.right)
      requires Shape() && RotatedLeft(elm, child)
      requires elm.rank == old(elm.rank) - 1
      requires !elm.redLeft && elm.redRight == child.redLeft && !parent.redRight && parent.redLeft == child.redRight
      requires child.redLeft == old(child.redLeft) && child.redRight == old(child.redRight)
      requires forall m {:trigger m.rank} :: m in nodes && m != elm && m != child ==> m.rank == old(m.rank)
      requires forall m {:trigger m.redLeft} {:trigger m.redRight} :: m in nodes && m != parent && m != elm ==>
        m.redLeft == old(m.redLeft) && m.redRight == old(m.redRight)
      ensures TurnReadyRight(parent, child, parent.rank - 1)
      ensures child.left == elm && parent != child
    {
      assert old(Linked(elm)) && old(Linked(parent)) && old(Linked(child)) && old(Ranked(child));
      forall n | n in nodes && n != parent && n != child ensures Ranked(n) {
        if n != elm {
          assert old(Ranked(n));
          RankedAfterRotateLeft(elm, child, n);
        }
      }
    }

    method ShareBitsLeft(parent: Node, elm: Node, child: Node)
      requires parent != elm && !elm.redRight && !parent.redLeft && !(child.redLeft && child.redRight)
      requires child != parent && child != elm
      modifies elm`redRight, parent`redLeft, elm`rank
      ensures elm.redRight == child.redLeft && parent.redLeft == child.redRight
      ensures elm.rank == old(elm.rank) - 1
    {
      elm.rank := elm.rank - 1;
      if child.redLeft {
        elm.redRight := !elm.redRight;
      } else if child.redRight {
        parent.redLeft := !parent.redLeft;
      }
    }

    // The inner rotation of RB_INSERT_COLOR; elm's bits have been flipped.
    method InsertInnerLeft(parent: Node, elm: Node) returns (child: Node)
      requires InnerReadyLeft(parent, elm)
      requires !elm.redLeft && !elm.redRight && !parent.redLeft && !parent.redRight
      modifies this`root, nodes
      ensures TurnReadyRight(parent, child, parent.rank - 1)
      ensures parent.rank == old(parent.rank) && RankOf(child.left) == parent.rank - 1
    {
      assert elm != parent && elm.right != parent && elm != elm.right by {
        assert Linked(elm) && Linked(parent) && Linked(elm.right);
      }
      child := RotateLeft(elm);
      ShareBitsLeft(parent, elm, child);
      InsertInnerLeftRanks(parent, elm, child);
    }

    // Before the inner rotation: elm has risen to parent's rank, and its own
    // left child is the node that pushed it there.
    ghost predicate InnerReadyRight(parent: Node, elm: Node)
      reads this, nodes
    {
      && Shape() && parent in nodes && elm in nodes && parent.right == elm && elm.left != null
      && RankedBut(parent, elm)
      && parent.rank == elm.rank == RankOf(elm.right) + 2 == elm.left.rank + 1
      && RankOf(elm.right) >= -1 && RankOf(parent.left) >= -1
      && parent.rank == RankOf(parent.left) + 2
      && !(elm.left.redRight && elm.left.redLeft)
    }

    twostate lemma InsertInnerRightRanks(parent: Node, new elm: Node, new child: Node)
      requires nodes == old(nodes) && old(allocated(elm)) && old(allocated(child))
      requires old(InnerReadyRight(parent, elm)) && parent in nodes && elm in nodes && child in nodes && child == old(elm.left)
      requires Shape() && RotatedRight(elm, child)
      requires elm.rank == old(elm.rank) - 1
      requires !elm.redRight && elm.redLeft == child.redRight && !parent.redLeft && parent.redRight == child.redLeft
      requires child.redRight == old(child.redRight) && child.redLeft == old(child.redLeft)
      requires forall m {:trigger m.rank} :: m in nodes && m != elm && m != child ==> m.rank == old(m.rank)
      requires forall m {:trigger m.redRight} {:trigger m.redLeft} :: m in nodes && m != parent && m != elm ==>
        m.redRight == old(m.redRight) && m.redLeft == old(m.redLeft)
      ensures TurnReadyLeft(parent, child, parent.rank - 1)
      ensures child.right == elm && parent != child
    {
      assert old(Linked(elm)) && old(Linked(parent)) && old(Linked(child)) && old(Ranked(child));
      forall n | n in nodes && n != parent && n != child ensures Ranked(n) {
        if n != elm {
          assert old(Ranked(n));
          RankedAfterRotateRight(elm, child, n);
        }
      }
    }

    method ShareBitsRight(parent: Node, elm: Node, child: Node)
      requires parent != elm && !elm.redLeft && !parent.redRight && !(child.redRight && child.redLeft)
      requires child != parent && child != elm
      modifies elm`redLeft, parent`redRight, elm`rank
      ensures elm.redLeft == child.redRight && parent.redRight == child.redLeft
      ensures elm.rank == old(elm.rank) - 1
    {
      elm.rank := elm.rank - 1;
      if child.redRight {
        elm.redLeft := !elm.redLeft;
      } else if child.redLeft {
        parent.redRight := !parent.redRight;
      }
    }

    // The inner rotation of RB_INSERT_COLOR; elm's bits have been flipped.
    method InsertInnerRight(parent: Node, elm: Node) returns (child: Node)
      requires InnerReadyRight(parent, elm)
      requires !elm.redRight && !elm.redLeft && !parent.redRight && !parent.redLeft
      modifies this`root, nodes
      ensures TurnReadyLeft(parent, child, parent.rank - 1)
      ensures parent.rank == old(parent.rank) && RankOf(child.right) == parent.rank - 1
    {
      assert elm != parent && elm.left != parent && elm != elm.left by {
        assert Linked(elm) && Linked(parent) && Linked(elm.left);
      }
      child := RotateRight(elm);
      ShareBitsRight(parent, elm, child);
      InsertInnerRightRanks(parent, elm, child);
    }

    // The outer rotation of RB_INSERT_COLOR.  Clearing the two bits of top is
    // written first; rotations leave bits alone.
    method InsertTurnLeft(parent: Node, top: Node)
      requires TurnReadyLeft(parent, top, parent.rank - 1) && RankOf(top.right) == parent.rank - 1
      modifies this`root, nodes
      ensures Valid()
    {
      ghost var q := parent.rank - 1;
      top.redLeft, top.redRight := false, false;
      assert TurnReadyLeft(parent, top, q);
      TurnLeft(parent, top, q);
    }

    // The outer rotation of RB_INSERT_COLOR.  Clearing the two bits of top is
    // written first; rotations leave bits alone.
    method InsertTurnRight(parent: Node, top: Node)
      requires TurnReadyRight(parent, top, parent.rank - 1) && RankOf(top.left) == parent.rank - 1
      modifies this`root, nodes
      ensures Valid()
    {
      ghost var q := parent.rank - 1;
      top.redRight, top.redLeft := false, false;
      assert TurnReadyRight(parent, top, q);
      TurnRight(parent, top, q);
    }

    // What RB_INSERT_COLOR still has to repair: the edge above elm.
    ghost predicate InsertPending(elm: Node)
      reads this, nodes
    {
      && Shape() && elm in nodes && JustRisen(elm)
      && RankedBut(elm.up, null)
      && (elm.up != null ==> elm.up.rank >= 0 && Lag(elm.up, elm, -1))
    }

    // RB_INSERT_COLOR's promotion: parent climbs one rank away from its other
    // child, and the edge above parent becomes the pending one.
    twostate lemma PromotedOverLeft(parent: Node, new elm: Node)
      requires old(allocated(elm)) && nodes == old(nodes) && parent in nodes && elm in nodes
      requires old(InsertPending(elm)) && parent == old(elm.up) && old(parent.left) == elm
      requires old(!parent.redLeft && !parent.redRight)
      requires Shape() && unchanged(nodes`left, nodes`right, nodes`up, nodes`redLeft)
      requires parent.redRight && parent.rank == old(parent.rank) + 1
      requires forall m {:trigger m.rank} {:trigger m.redRight} :: m in nodes && m != parent ==>
        m.rank == old(m.rank) && m.redRight == old(m.redRight)
      ensures InsertPending(parent)
    {
      ghost var g := parent.up;
      assert old(Linked(elm)) && old(Linked(parent)) && old(Ranked(elm));
      assert g != null ==> old(Ranked(g)) && old(Linked(g));
      forall n | n in nodes && n != g ensures Ranked(n) {
        if n != parent {
          assert old(Ranked(n)) && old(Linked(n));
        }
      }
    }

    // RB_INSERT_COLOR's promotion: parent climbs one rank away from its other
    // child, and the edge above parent becomes the pending one.
    twostate lemma PromotedOverRight(parent: Node, new elm: Node)
      requires old(allocated(elm)) && nodes == old(nodes) && parent in nodes && elm in nodes
      requires old(InsertPending(elm)) && parent == old(elm.up) && old(parent.right) == elm
      requires old(!parent.redRight && !parent.redLeft)
      requires Shape() && unchanged(nodes`right, nodes`left, nodes`up, nodes`redRight)
      requires parent.redLeft && parent.rank == old(parent.rank) + 1
      requires forall m {:trigger m.rank} {:trigger m.redLeft} :: m in nodes && m != parent ==>
        m.rank == old(m.rank) && m.redLeft == old(m.redLeft)
      ensures InsertPending(parent)
    {
      ghost var g := parent.up;
      assert old(Linked(elm)) && old(Linked(parent)) && old(Ranked(elm));
      assert g != null ==> old(Ranked(g)) && old(Linked(g));
      forall n | n in nodes && n != g ensures Ranked(n) {
        if n != parent {
          assert old(Ranked(n)) && old(Linked(n));
        }
      }
    }

    // The rotations of RB_INSERT_COLOR for elm == parent.left.
    method InsertRotateLeft(parent: Node, elm: Node)
      requires InsertPending(elm) && parent == elm.up && parent.left == elm
      requires !parent.redLeft && parent.redRight
      modifies this`root, nodes
      ensures Valid()
    {
      hide Sorted, Rooted, Closed;
      assert Linked(elm) && Linked(parent) && Ranked(elm);
      assert parent.right != elm;
      parent.redRight := !parent.redRight;
      var top := elm;
      if !elm.redRight {
        elm.redLeft := !elm.redLeft;
        top := InsertInnerLeft(parent, elm);
      }
      InsertTurnRight(parent, top);
    }

    // The rotations of RB_INSERT_COLOR for elm == parent.right.
    method InsertRotateRight(parent: Node, elm: Node)
      requires InsertPending(elm) && parent == elm.up && parent.right == elm
      requires !parent.redRight && parent.redLeft
      modifies this`root, nodes
      ensures Valid()
    {
      hide Sorted, Rooted, Closed;
      assert Linked(elm) && Linked(parent) && Ranked(elm);
      assert parent.left != elm;
      parent.redLeft := !parent.redLeft;
      var top := elm;
      if !elm.redLeft {
        elm.redRight := !elm.redRight;
        top := InsertInnerRight(parent, elm);
      }
      InsertTurnLeft(parent, top);
    }

    // One round of RB_INSERT_COLOR for elm == parent.left: done, or the parent
    // has risen instead.
    method InsertStepLeft(parent: Node, elm: Node) returns (done: bool)
      requires InsertPending(elm) && parent == elm.up && parent.left == elm
      modifies this`root, nodes
      ensures if done then Valid() else
        && InsertPending(parent) && parent.up == old(parent.up)
        && parent.first == old(parent.first) && parent.last == old(parent.last)
    {
      assert Linked(elm) && Linked(parent);
      assert parent.right != elm;
      done := true;
      if parent.redLeft {
        parent.redLeft := !parent.redLeft;
      } else if !parent.redRight {
        parent.redRight := !parent.redRight;
        parent.rank := parent.rank + 1;
        PromotedOverLeft(parent, elm);
        done := false;
      } else {
        InsertRotateLeft(parent, elm);
      }
    }

    // One round of RB_INSERT_COLOR for elm == parent.right: done, or the parent
    // has risen instead.
    method InsertStepRight(parent: Node, elm: Node) returns (done: bool)
      requires InsertPending(elm) && parent == elm.up && parent.right == elm
      modifies this`root, nodes
      ensures if done then Valid() else
        && InsertPending(parent) && parent.up == old(parent.up)
        && parent.first == old(parent.first) && parent.last == old(parent.last)
    {
      assert Linked(elm) && Linked(parent);
      assert parent.left != elm;
      done := true;
      if parent.redRight {
        parent.redRight := !parent.redRight;
      } else if !parent.redLeft {
        parent.redLeft := !parent.redLeft;
        parent.rank := parent.rank + 1;
        PromotedOverRight(parent, elm);
        done := false;
      } else {
        InsertRotateRight(parent, elm);
      }
    }

    method InsertColor(elm0: Node)
      requires InsertPending(elm0)
      modifies this`root, nodes
      ensures Valid()
    {
      var elm: Node := elm0;
      while elm.up != null
        invariant InsertPending(elm)
        decreases |order| - (elm.last - elm.first)
      {
        var parent: Node := elm.up;
        assert Linked(elm) && Linked(parent);
        var done;
        if parent.left == elm {
          done := InsertStepLeft(parent, elm);
        } else {
          done := InsertStepRight(parent, elm);
        }
        if done {
          return;
        }
        elm := parent;
      }
    }

    // The ghost bookkeeping of an attachment at position i: everything from i
    // on moves up by one, and so does every slice border from b on.
    ghost method MakeRoom(i: int, b: int)
      modifies nodes`first, nodes`mid, nodes`last
      ensures forall n {:trigger n.mid} :: n in nodes ==> n.mid == old(n.mid) + (if old(n.mid) >= i then 1 else 0)
      ensures forall n {:trigger n.first} :: n in nodes ==> n.first == old(n.first) + (if old(n.first) >= b then 1 else 0)
      ensures forall n {:trigger n.last} :: n in nodes ==> n.last == old(n.last) + (if old(n.last) >= b then 1 else 0)
    {
      forall n | n in nodes { n.mid := n.mid + (if n.mid >= i then 1 else 0); }
      forall n | n in nodes { n.first := n.first + (if n.first >= b then 1 else 0); }
      forall n | n in nodes { n.last := n.last + (if n.last >= b then 1 else 0); }
    }

    // Where a new key belongs below parent: at parent's empty left side when it
    // is smaller, at the empty right side when it is larger.
    ghost predicate SlotFor(key: int, parent: Node, comp: int)
      reads this, nodes, parent
    {
      && parent in nodes && comp != 0
      && (comp < 0 ==> parent.left == null)
      && (comp > 0 ==> parent.right == null)
      && var i := if comp < 0 then parent.mid else parent.mid + 1;
      && 0 <= i <= |order|
      && (forall j :: 0 <= j < i ==> order[j].key < key)
      && (forall j :: i <= j < |order| ==> key < order[j].key)
    }

    twostate predicate Attached(new elm: Node, parent: Node, new comp: int)
      requires old(allocated(elm))
      reads this, nodes, elm
    {
      var i := if comp < 0 then old(parent.mid) else old(parent.mid) + 1;
      var b := old(parent.mid) + 1;
      && elm !in old(nodes) && nodes == old(nodes) + {elm}
      && 0 <= i <= |old(order)|
      && order == old(order)[..i] + [elm] + old(order)[i..]
      && root == old(root)
      && elm.left == null && elm.right == null && elm.up == parent
      && elm.first == elm.mid == i && elm.last == i + 1
      && (forall n {:trigger n.left} :: n in nodes && n != elm ==> n.left == (if n == parent && comp < 0 then elm else old(n.left)))
      && (forall n {:trigger n.right} :: n in nodes && n != elm ==> n.right == (if n == parent && comp >= 0 then elm else old(n.right)))
      && (forall n {:trigger n.up} :: n in nodes && n != elm ==> n.up == old(n.up))
      && (forall n {:trigger n.mid} :: n in nodes && n != elm ==> n.mid == old(n.mid) + (if old(n.mid) >= i then 1 else 0))
      && (forall n {:trigger n.first} :: n in nodes && n != elm ==> n.first == old(n.first) + (if old(n.first) >= b then 1 else 0))
      && (forall n {:trigger n.last} :: n in nodes && n != elm ==> n.last == old(n.last) + (if old(n.last) >= b then 1 else 0))
    }

    twostate lemma AttachedLinked(new elm: Node, parent: Node, new comp: int, new n: Node)
      requires old(allocated(elm)) && old(allocated(n))
      requires old(Shape()) && old(SlotFor(elm.key, parent, comp)) && Attached(elm, parent, comp)
      requires n in nodes && n != elm
      ensures Linked(n)
    {
      assert old(Linked(n)) && old(Linked(parent));
      if old(n.left) != null { assert old(Linked(n.left)); }
      if old(n.right) != null { assert old(Linked(n.right)); }
      if old(n.up) != null { assert old(Linked(n.up)); }
    }

    twostate lemma AttachedOrder(new elm: Node, parent: Node, new comp: int)
      requires old(allocated(elm))
      requires old(Shape()) && old(SlotFor(elm.key, parent, comp)) && Attached(elm, parent, comp)
      ensures Sorted() && forall i :: 0 <= i < |order| ==> order[i] in nodes
    {
      var p := elm.mid;
      forall i | 0 <= i < |order|
        ensures order[i] == if i < p then old(order)[i] else if i == p then elm else old(order)[i - 1]
      {
      }
    }

    twostate lemma AttachedShape(new elm: Node, parent: Node, new comp: int)
      requires old(allocated(elm))
      requires old(Shape()) && old(SlotFor(elm.key, parent, comp)) && Attached(elm, parent, comp)
      ensures Shape()
    {
      AttachedOrder(elm, parent, comp);
      assert old(Linked(parent)) && parent in nodes;
      assert Linked(elm);
      forall n | n in nodes && n != elm ensures Linked(n) {
        AttachedLinked(elm, parent, comp, n);
      }
      ClosedFromLinked();
    }

    // The ghost part of RB_INSERT's tail: elm enters order and nodes.
    ghost method TakeSlot(elm: Node, i: int, b: int)
      requires elm !in nodes && 0 <= i <= |order|
      modifies this`nodes, this`order, elm`first, elm`mid, elm`last, elm`rank, nodes`first, nodes`mid, nodes`last
      ensures nodes == old(nodes) + {elm} && order == old(order)[..i] + [elm] + old(order)[i..]
      ensures elm.first == elm.mid == i && elm.last == i + 1 && elm.rank == 0
      ensures forall n {:trigger n.mid} :: n in nodes && n != elm ==> n.mid == old(n.mid) + (if old(n.mid) >= i then 1 else 0)
      ensures forall n {:trigger n.first} :: n in nodes && n != elm ==> n.first == old(n.first) + (if old(n.first) >= b then 1 else 0)
      ensures forall n {:trigger n.last} :: n in nodes && n != elm ==> n.last == old(n.last) + (if old(n.last) >= b then 1 else 0)
    {
      MakeRoom(i, b);
      elm.first, elm.mid, elm.last, elm.rank := i, i, i + 1, 0;
      order := order[..i] + [elm] + order[i..];
      nodes := nodes + {elm};
    }

    // The tail of RB_INSERT before recolouring: RB_SET and the link from parent.
    method AttachLinks(elm: Node, parent: Node, comp: int)
      requires elm !in nodes && parent in nodes && 0 <= parent.mid < |order|
      modifies this`nodes, this`order, elm, nodes`left, nodes`right, nodes`first, nodes`mid, nodes`last
      ensures Attached(elm, parent, comp)
      ensures elm.rank == 0 && !elm.redLeft && !elm.redRight
    {
      elm.up := parent;
      elm.left, elm.right := null, null;
      elm.redLeft, elm.redRight := false, false;
      TakeSlot(elm, if comp < 0 then parent.mid else parent.mid + 1, parent.mid + 1);
      if comp < 0 {
        parent.left := elm;
      } else {
        parent.right := elm;
      }
    }

    method Attach(elm: Node, parent: Node, comp: int)
      requires Valid() && elm !in nodes && SlotFor(elm.key, parent, comp)
      modifies this`nodes, this`order, elm, nodes`left, nodes`right, nodes`first, nodes`mid, nodes`last
      ensures nodes == old(nodes) + {elm}
      ensures InsertPending(elm)
    {
      assert Linked(parent);
      AttachLinks(elm, parent, comp);
      AttachedShape(elm, parent, comp);
      AttachedRanks(elm, parent, comp);
    }

    twostate lemma AttachedRanks(new elm: Node, parent: Node, new comp: int)
      requires old(allocated(elm))
      requires old(Valid()) && old(SlotFor(elm.key, parent, comp)) && Attached(elm, parent, comp) && Shape()
      requires elm.rank == 0 && !elm.redLeft && !elm.redRight
      requires unchanged(old(nodes)`rank, old(nodes)`redLeft, old(nodes)`redRight)
      ensures InsertPending(elm)
    {
      assert old(Linked(parent)) && old(Ranked(parent));
      forall n | n in nodes && n != parent ensures Ranked(n) {
        if n != elm {
          assert old(Ranked(n)) && old(Linked(n));
        }
      }
    }

    // RB_INSERT: the node already holding the key, or null after elm went in.
    method Insert(elm: Node) returns (found: Node?)
      requires Valid() && elm !in nodes
      modifies this, nodes, elm
      ensures Valid()
      ensures found != null ==> found in nodes && found.key == elm.key
      ensures found != null ==> root == old(root) && nodes == old(nodes) && order == old(order) && unchanged(nodes) && unchanged(elm)
      ensures found == null ==> elm.key !in old(Keys()) && nodes == old(nodes) + {elm} && Keys() == old(Keys()) + {elm.key}
    {
      var tmp := root;
      var parent: Node? := null;
      var comp := 0;
      ghost var lo, hi := 0, |order|;
      while tmp != null
        invariant 0 <= lo <= hi <= |order|
        invariant tmp != null ==> tmp in nodes && tmp.first == lo && tmp.last == hi
        invariant tmp == null ==> lo == hi
        invariant parent == null ==> tmp == root && lo == 0 && hi == |order|
        invariant parent != null && tmp == null ==> SlotFor(elm.key, parent, comp)
        invariant forall j :: 0 <= j < lo ==> order[j].key < elm.key
        invariant forall j :: hi <= j < |order| ==> elm.key < order[j].key
        decreases hi - lo + (if tmp == null then 0 else 1)
      {
        assert Linked(tmp);
        parent := tmp;
        comp := elm.key - parent.key;
        if comp < 0 {
          hi := tmp.mid;
          tmp := tmp.left;
        } else if comp > 0 {
          lo := tmp.mid + 1;
          tmp := tmp.right;
        } else {
          return tmp;
        }
        if tmp != null {
          assert Linked(tmp);
        }
      }
      forall n | n in nodes ensures n.key != elm.key {
        assert Linked(n);
      }
      if parent == null {
        AddRoot(elm);
      } else {
        Attach(elm, parent, comp);
      }
      InsertColor(elm);
      return null;
    }

    method AddRoot(elm: Node)
      requires Valid() && root == null && elm !in nodes
      modifies this, elm
      ensures nodes == old(nodes) + {elm}
      ensures InsertPending(elm)
    {
      elm.up := null;
      elm.left, elm.right := null, null;
      elm.redLeft, elm.redRight := false, false;
      root := elm;
      elm.first, elm.mid, elm.last, elm.rank := 0, 0, 1, 0;
      order := [elm];
      nodes := nodes + {elm};
      assert Linked(elm);
    }

    // What RB_REMOVE_COLOR still has to repair: the subtree at elm, possibly
    // empty, is one rank further below parent than its bit says.
    ghost predicate RemovePending(parent: Node, elm: Node?)
      reads this, nodes
    {
      && Shape() && parent in nodes && RankedBut(parent, null)
      && (parent.left == elm || parent.right == elm) && parent.left != parent.right
      && Lag(parent, elm, 1)
    }

    // The same with the sunken node known: done once it is the root.
    ghost predicate Sunk(elm: Node)
      reads this, nodes
    {
      && Shape() && elm in nodes && RankedBut(elm.up, null)
      && (elm.up != null ==> Lag(elm.up, elm, 1))
    }

    // parent, and perhaps its child sib with it, has been demoted by one.
    twostate lemma SunkAfter(parent: Node, new sib: Node)
      requires old(allocated(sib)) && nodes == old(nodes) && parent in nodes && sib in nodes
      requires old(Shape() && RankedBut(parent, null)) && (sib == parent || sib.up == parent)
      requires Shape() && unchanged(nodes`left, nodes`right, nodes`up)
      requires parent.rank == old(parent.rank) - 1 && Ranked(parent) && Ranked(sib)
      requires forall m {:trigger m.rank} {:trigger m.redLeft} {:trigger m.redRight} :: m in nodes && m != parent && m != sib ==>
        m.rank == old(m.rank) && m.redLeft == old(m.redLeft) && m.redRight == old(m.redRight)
      ensures Sunk(parent)
    {
      hide Sorted, Rooted, Closed;
      forall n | n in nodes && n != parent.up ensures Ranked(n) {
        SunkOther(parent, sib, n);
      }
      if parent.up != null {
        SunkEdge(parent, sib, parent.up);
      }
    }

    twostate lemma SunkOther(parent: Node, new sib: Node, new n: Node)
      requires old(allocated(n))
      requires old(allocated(sib)) && nodes == old(nodes) && parent in nodes && sib in nodes
      requires old(Shape() && RankedBut(parent, null)) && (sib == parent || sib.up == parent)
      requires Shape() && unchanged(nodes`left, nodes`right, nodes`up)
      requires parent.rank == old(parent.rank) - 1 && Ranked(parent) && Ranked(sib)
      requires forall m {:trigger m.rank} {:trigger m.redLeft} {:trigger m.redRight} :: m in nodes && m != parent && m != sib ==>
        m.rank == old(m.rank) && m.redLeft == old(m.redLeft) && m.redRight == old(m.redRight)
      requires n in nodes && n != parent.up
      ensures Ranked(n)
    {
      hide Sorted, Rooted, Closed;
      if n != parent && n != sib {
        assert old(Ranked(n)) && old(Linked(n)) && old(Linked(parent)) && old(Linked(sib));
      }
    }

    twostate lemma SunkEdge(parent: Node, new sib: Node, new g: Node)
      requires old(allocated(g))
      requires old(allocated(sib)) && nodes == old(nodes) && parent in nodes && sib in nodes
      requires old(Shape() && RankedBut(parent, null)) && (sib == parent || sib.up == parent)
      requires Shape() && unchanged(nodes`left, nodes`right, nodes`up)
      requires parent.rank == old(parent.rank) - 1 && Ranked(parent) && Ranked(sib)
      requires forall m {:trigger m.rank} {:trigger m.redLeft} {:trigger m.redRight} :: m in nodes && m != parent && m != sib ==>
        m.rank == old(m.rank) && m.redLeft == old(m.redLeft) && m.redRight == old(m.redRight)
      requires g == parent.up
      ensures Lag(g, parent, 1)
    {
      hide Sorted, Rooted, Closed;
      assert old(Linked(parent)) && old(Linked(sib)) && old(Linked(g)) && old(Ranked(g));
    }

    twostate lemma RemoveInnerLeftRanks(parent: Node, new sib: Node, new elm: Node)
      requires nodes == old(nodes) && old(allocated(sib)) && old(allocated(elm))
      requires parent in nodes && sib in nodes && elm in nodes && elm == old(sib.right)
      requires old(Shape() && RankedBut(parent, sib) && Ranked(elm)) && old(parent.left) == sib
      requires old(parent.rank == sib.rank + 1 == elm.rank + 2 == RankOf(sib.left) + 3 == RankOf(parent.right) + 3)
      requires old(RankOf(sib.left) >= -1 && RankOf(parent.right) >= -1)
      requires Shape() && RotatedLeft(sib, elm)
      requires sib.rank == old(sib.rank) - 1
      requires !sib.redLeft && sib.redRight == old(elm.redLeft) && !parent.redRight && parent.redLeft == old(elm.redRight)
      requires forall m {:trigger m.rank} :: m in nodes && m != sib ==> m.rank == old(m.rank)
      requires forall m {:trigger m.redLeft} {:trigger m.redRight} :: m in nodes && m != parent && m != sib && m != elm ==>
        m.redLeft == old(m.redLeft) && m.redRight == old(m.redRight)
      ensures TurnReadyRight(parent, elm, parent.rank - 2)
      ensures elm.left == sib
    {
      assert old(Linked(sib)) && old(Linked(parent)) && old(Linked(elm));
      forall n | n in nodes && n != parent && n != elm ensures Ranked(n) {
        if n != sib {
          assert old(Ranked(n));
          RankedAfterRotateLeft(sib, elm, n);
        }
      }
    }

    method HandDownBitsLeft(parent: Node, sib: Node, elm: Node)
      requires parent != sib && elm != parent && elm != sib
      requires !sib.redRight && !parent.redLeft
      modifies sib`redRight, parent`redLeft, elm`redLeft, elm`redRight, sib`rank
      ensures sib.redRight == old(elm.redLeft) && parent.redLeft == old(elm.redRight)
      ensures elm.redLeft && elm.redRight && sib.rank == old(sib.rank) - 1
    {
      sib.rank := sib.rank - 1;
      if elm.redLeft {
        sib.redRight := !sib.redRight;
      }
      if elm.redRight {
        parent.redLeft := !parent.redLeft;
      }
      elm.redLeft, elm.redRight := true, true;
    }

    // The inner rotation of RB_REMOVE_COLOR at the sibling sib == parent.left.
    method RemoveInnerLeft(parent: Node, sib: Node) returns (elm: Node)
      requires Shape() && parent in nodes && sib in nodes && RankedBut(parent, sib) && parent.left == sib && sib.right != null
      requires parent.rank == sib.rank + 1 == sib.right.rank + 2 == RankOf(sib.left) + 3 == RankOf(parent.right) + 3
      requires RankOf(sib.left) >= -1 && RankOf(parent.right) >= -1
      requires !sib.redLeft && !sib.redRight && !parent.redLeft && !parent.redRight
      modifies this`root, nodes
      ensures TurnReadyRight(parent, elm, parent.rank - 2)
      ensures parent.rank == old(parent.rank) && RankOf(elm.left) == parent.rank - 2 && elm.redLeft && elm.redRight
    {
      assert sib != parent && sib.right != parent && sib != sib.right && Ranked(sib.right) by {
        assert Linked(sib) && Linked(parent) && Linked(sib.right);
      }
      elm := RotateLeft(sib);
      HandDownBitsLeft(parent, sib, elm);
      RemoveInnerLeftRanks(parent, sib, elm);
    }

    twostate lemma RemoveInnerRightRanks(parent: Node, new sib: Node, new elm: Node)
      requires nodes == old(nodes) && old(allocated(sib)) && old(allocated(elm))
      requires parent in nodes && sib in nodes && elm in nodes && elm == old(sib.left)
      requires old(Shape() && RankedBut(parent, sib) && Ranked(elm)) && old(parent.right) == sib
      requires old(parent.rank == sib.rank + 1 == elm.rank + 2 == RankOf(sib.right) + 3 == RankOf(parent.left) + 3)
      requires old(RankOf(sib.right) >= -1 && RankOf(parent.left) >= -1)
      requires Shape() && RotatedRight(sib, elm)
      requires sib.rank == old(sib.rank) - 1
      requires !sib.redRight && sib.redLeft == old(elm.redRight) && !parent.redLeft && parent.redRight == old(elm.redLeft)
      requires forall m {:trigger m.rank} :: m in nodes && m != sib ==> m.rank == old(m.rank)
      requires forall m {:trigger m.redRight} {:trigger m.redLeft} :: m in nodes && m != parent && m != sib && m != elm ==>
        m.redRight == old(m.redRight) && m.redLeft == old(m.redLeft)
      ensures TurnReadyLeft(parent, elm, parent.rank - 2)
      ensures elm.right == sib
    {
      assert old(Linked(sib)) && old(Linked(parent)) && old(Linked(elm));
      forall n | n in nodes && n != parent && n != elm ensures Ranked(n) {
        if n != sib {
          assert old(Ranked(n));
          RankedAfterRotateRight(sib, elm, n);
        }
      }
    }

    method HandDownBitsRight(parent: Node, sib: Node, elm: Node)
      requires parent != sib && elm != parent && elm != sib
      requires !sib.redLeft && !parent.redRight
      modifies sib`redLeft, parent`redRight, elm`redRight, elm`redLeft, sib`rank
      ensures sib.redLeft == old(elm.redRight) && parent.redRight == old(elm.redLeft)
      ensures elm.redRight && elm.redLeft && sib.rank == old(sib.rank) - 1
    {
      sib.rank := sib.rank - 1;
      if elm.redRight {
        sib.redLeft := !sib.redLeft;
      }
      if elm.redLeft {
        parent.redRight := !parent.redRight;
      }
      elm.redRight, elm.redLeft := true, true;
    }

    // The inner rotation of RB_REMOVE_COLOR at the sibling sib == parent.right.
    method RemoveInnerRight(parent: Node, sib: Node) returns (elm: Node)
      requires Shape() && parent in nodes && sib in nodes && RankedBut(parent, sib) && parent.right == sib && sib.left != null
      requires parent.rank == sib.rank + 1 == sib.left.rank + 2 == RankOf(sib.right) + 3 == RankOf(parent.left) + 3
      requires RankOf(sib.right) >= -1 && RankOf(parent.left) >= -1
      requires !sib.redRight && !sib.redLeft && !parent.redRight && !parent.redLeft
      modifies this`root, nodes
      ensures TurnReadyLeft(parent, elm, parent.rank - 2)
      ensures parent.rank == old(parent.rank) && RankOf(elm.right) == parent.rank - 2 && elm.redRight && elm.redLeft
    {
      assert sib != parent && sib.left != parent && sib != sib.left && Ranked(sib.left) by {
        assert Linked(sib) && Linked(parent) && Linked(sib.left);
      }
      elm := RotateRight(sib);
      HandDownBitsRight(parent, sib, elm);
      RemoveInnerRightRanks(parent, sib, elm);
    }

    // The rotations of RB_REMOVE_COLOR for elm == parent.left; the right bit of
    // the sibling has been flipped.
    ghost predicate SiblingFlippedLeft(parent: Node, elm: Node?, sib: Node)
      reads this, nodes
    {
      && Shape() && parent in nodes && sib in nodes && RankedBut(parent, sib)
      && parent.left == elm && parent.right == sib && parent.redLeft && !parent.redRight
      && parent.rank == sib.rank + 1 == RankOf(elm) + 3 && RankOf(elm) >= -1
      && RankOf(sib.left) >= -1 && RankOf(sib.right) >= -1
      && sib.rank == RankOf(sib.left) + Drop(sib.redLeft)
      && sib.rank == RankOf(sib.right) + Drop(!sib.redRight)
    }

    method RemoveSingleLeft(parent: Node, elm: Node?, sib: Node)
      requires SiblingFlippedLeft(parent, elm, sib) && sib.redRight
      modifies this`root, nodes
      ensures Valid()
    {
      ghost var q := parent.rank - Drop(sib.redLeft);
      if sib.redLeft {
        parent.redLeft := !parent.redLeft;
      }
      assert TurnReadyLeft(parent, sib, q);
      TurnLeft(parent, sib, q);
    }

    method RemoveDoubleLeft(parent: Node, elm: Node?, sib: Node)
      requires SiblingFlippedLeft(parent, elm, sib) && !sib.redLeft && !sib.redRight
      modifies this`root, nodes
      ensures Valid()
    {
      parent.redLeft := !parent.redLeft;
      var top := RemoveInnerRight(parent, sib);
      TurnLeft(parent, top, parent.rank - 2);
    }

    method RemoveRotateLeft(parent: Node, elm: Node?, sib: Node)
      requires RemovePending(parent, elm) && parent.left == elm && parent.right == sib
      requires parent.redLeft && !parent.redRight && !(sib.redLeft && sib.redRight)
      modifies this`root, nodes
      ensures Valid()
    {
      assert Linked(parent) && Linked(sib) && Ranked(sib);
      sib.redRight := !sib.redRight;
      if sib.redLeft || sib.redRight {
        RemoveSingleLeft(parent, elm, sib);
      } else {
        RemoveDoubleLeft(parent, elm, sib);
      }
    }

    // Parent and its right child, which has two red edges, both sink by one.
    method RemoveSinkLeft(parent: Node, elm: Node?, sib: Node)
      requires RemovePending(parent, elm) && parent.left == elm && parent.right == sib
      requires parent.redLeft && !parent.redRight && sib.redLeft && sib.redRight
      modifies sib`redLeft, sib`redRight, sib`rank, parent`rank
      ensures Sunk(parent)
    {
      hide Sorted, Rooted, Closed;
      assert Linked(parent) && Linked(sib) && Ranked(sib);
      sib.redLeft, sib.redRight := false, false;
      sib.rank, parent.rank := sib.rank - 1, parent.rank - 1;
      SunkAfter(parent, sib);
    }

    // One round of RB_REMOVE_COLOR for elm == parent.left: done, or the parent
    // has sunk by one.
    method RemoveStepLeft(parent: Node, elm: Node?) returns (done: bool)
      requires RemovePending(parent, elm) && parent.left == elm
      modifies this`root, nodes
      ensures if done then Valid() else
        && Sunk(parent) && parent.up == old(parent.up)
        && parent.first == old(parent.first) && parent.last == old(parent.last)
    {
      done := true;
      if !parent.redLeft {
        parent.redLeft := !parent.redLeft;
      } else if parent.redRight {
        parent.redRight := !parent.redRight;
        parent.rank := parent.rank - 1;
        SunkAfter(parent, parent);
        done := false;
      } else {
        assert parent.right != null;
        var sib: Node := parent.right;
        if sib.redLeft && sib.redRight {
          RemoveSinkLeft(parent, elm, sib);
          done := false;
        } else {
          RemoveRotateLeft(parent, elm, sib);
        }
      }
    }

    // The rotations of RB_REMOVE_COLOR for elm == parent.right; the left bit of
    // the sibling has been flipped.
    ghost predicate SiblingFlippedRight(parent: Node, elm: Node?, sib: Node)
      reads this, nodes
    {
      && Shape() && parent in nodes && sib in nodes && RankedBut(parent, sib)
      && parent.right == elm && parent.left == sib && parent.redRight && !parent.redLeft
      && parent.rank == sib.rank + 1 == RankOf(elm) + 3 && RankOf(elm) >= -1
      && RankOf(sib.right) >= -1 && RankOf(sib.left) >= -1
      && sib.rank == RankOf(sib.right) + Drop(sib.redRight)
      && sib.rank == RankOf(sib.left) + Drop(!sib.redLeft)
    }

    method RemoveSingleRight(parent: Node, elm: Node?, sib: Node)
      requires SiblingFlippedRight(parent, elm, sib) && sib.redLeft
      modifies this`root, nodes
      ensures Valid()
    {
      ghost var q := parent.rank - Drop(sib.redRight);
      if sib.redRight {
        parent.redRight := !parent.redRight;
      }
      assert TurnReadyRight(parent, sib, q);
      TurnRight(parent, sib, q);
    }

    method RemoveDoubleRight(parent: Node, elm: Node?, sib: Node)
      requires SiblingFlippedRight(parent, elm, sib) && !sib.redRight && !sib.redLeft
      modifies this`root, nodes
      ensures Valid()
    {
      parent.redRight := !parent.redRight;
      var top := RemoveInnerLeft(parent, sib);
      TurnRight(parent, top, parent.rank - 2);
    }

    method RemoveRotateRight(parent: Node, elm: Node?, sib: Node)
      requires RemovePending(parent, elm) && parent.right == elm && parent.left == sib
      requires parent.redRight && !parent.redLeft && !(sib.redRight && sib.redLeft)
      modifies this`root, nodes
      ensures Valid()
    {
      assert Linked(parent) && Linked(sib) && Ranked(sib);
      sib.redLeft := !sib.redLeft;
      if sib.redRight || sib.redLeft {
        RemoveSingleRight(parent, elm, sib);
      } else {
        RemoveDoubleRight(parent, elm, sib);
      }
    }

    // Parent and its left child, which has two red edges, both sink by one.
    method RemoveSinkRight(parent: Node, elm: Node?, sib: Node)
      requires RemovePending(parent, elm) && parent.right == elm && parent.left == sib
      requires parent.redRight && !parent.redLeft && sib.redRight && sib.redLeft
      modifies sib`redRight, sib`redLeft, sib`rank, parent`rank
      ensures Sunk(parent)
    {
      hide Sorted, Rooted, Closed;
      assert Linked(parent) && Linked(sib) && Ranked(sib);
      sib.redRight, sib.redLeft := false, false;
      sib.rank, parent.rank := sib.rank - 1, parent.rank - 1;
      SunkAfter(parent, sib);
    }

    // One round of RB_REMOVE_COLOR for elm == parent.right: done, or the parent
    // has sunk by one.
    method RemoveStepRight(parent: Node, elm: Node?) returns (done: bool)
      requires RemovePending(parent, elm) && parent.right == elm
      modifies this`root, nodes
      ensures if done then Valid() else
        && Sunk(parent) && parent.up == old(parent.up)
        && parent.first == old(parent.first) && parent.last == old(parent.last)
    {
      done := true;
      if !parent.redRight {
        parent.redRight := !parent.redRight;
      } else if parent.redLeft {
        parent.redLeft := !parent.redLeft;
        parent.rank := parent.rank - 1;
        SunkAfter(parent, parent);
        done := false;
      } else {
        assert parent.left != null;
        var sib: Node := parent.left;
        if sib.redRight && sib.redLeft {
          RemoveSinkRight(parent, elm, sib);
          done := false;
        } else {
          RemoveRotateRight(parent, elm, sib);
        }
      }
    }

    // RB_REMOVE_COLOR's first case: parent has become a leaf and loses a rank.
    ghost predicate LeafPending(parent: Node)
      reads this, nodes
    {
      && Shape() && parent in nodes && RankedBut(parent, null)
      && parent.left == null && parent.right == null && parent.rank == 1
    }

    method SinkLeaf(parent: Node)
      requires LeafPending(parent)
      modifies parent`redLeft, parent`redRight, parent`rank
      ensures Sunk(parent)
    {
      parent.redLeft, parent.redRight := false, false;
      parent.rank := 0;
      SunkAfter(parent, parent);
    }

    method RemoveColor(parent0: Node, elm0: Node?)
      requires if parent0.left == elm0 && parent0.right == elm0 then LeafPending(parent0) else RemovePending(parent0, elm0)
      modifies this`root, nodes
      ensures Valid()
    {
      hide Sorted, Rooted, Closed;
      var parent: Node? := parent0;
      var elm := elm0;
      if parent.left == elm && parent.right == elm {
        SinkLeaf(parent);
        elm := parent;
        assert Linked(elm);
        parent := elm.up;
        if parent == null {
          return;
        }
        assert Linked(parent);
      }
      while parent != null
        invariant parent == null ==> Valid()
        invariant parent != null ==> RemovePending(parent, elm)
        decreases if parent == null then 0 else |order| + 1 - (parent.last - parent.first)
      {
        var done;
        if parent.left == elm {
          done := RemoveStepLeft(parent, elm);
        } else {
          done := RemoveStepRight(parent, elm);
        }
        if done {
          return;
        }
        elm := parent;
        assert Linked(elm);
        parent := elm.up;
        if parent != null {
          assert Linked(parent);
        }
      }
    }

    // The ghost bookkeeping of a removal at position i: everything behind i
    // moves down by one, and so does every slice border behind b.
    ghost method CloseGap(i: int, b: int)
      modifies nodes`first, nodes`mid, nodes`last
      ensures forall n {:trigger n.mid} :: n in nodes ==> n.mid == old(n.mid) - (if old(n.mid) > i then 1 else 0)
      ensures forall n {:trigger n.first} :: n in nodes ==> n.first == old(n.first) - (if old(n.first) > b then 1 else 0)
      ensures forall n {:trigger n.last} :: n in nodes ==> n.last == old(n.last) - (if old(n.last) > b then 1 else 0)
    {
      forall n | n in nodes { n.mid := n.mid - (if n.mid > i then 1 else 0); }
      forall n | n in nodes { n.first := n.first - (if n.first > b then 1 else 0); }
      forall n | n in nodes { n.last := n.last - (if n.last > b then 1 else 0); }
    }

    // RB_REMOVE of a node with at most one child: the child takes its place.
    twostate predicate Spliced(x: Node, new child: Node?)
      reads this, nodes
    {
      var i := old(x.mid);
      && nodes == old(nodes) - {x}
      && 0 <= i < |old(order)|
      && order == old(order)[..i] + old(order)[i + 1..]
      && root == (if old(x.up) == null then child else old(root))
      && (forall n {:trigger n.left} :: n in nodes ==> n.left == (if old(n.left) == x then child else old(n.left)))
      && (forall n {:trigger n.right} :: n in nodes ==> n.right == (if old(n.right) == x then child else old(n.right)))
      && (forall n {:trigger n.up} :: n in nodes ==> n.up == (if n == child then old(x.up) else old(n.up)))
      && (forall n {:trigger n.mid} :: n in nodes ==> n.mid == old(n.mid) - (if old(n.mid) > i then 1 else 0))
      && (forall n {:trigger n.first} :: n in nodes ==> n.first == old(n.first) - (if old(n.first) > i then 1 else 0))
      && (forall n {:trigger n.last} :: n in nodes ==> n.last == old(n.last) - (if old(n.last) > i then 1 else 0))
    }

    ghost predicate OnlyChild(x: Node, child: Node?)
      reads x`left, x`right
    {
      (x.left == null && child == x.right) || (x.right == null && child == x.left)
    }

    twostate lemma SplicedLinkedChild(x: Node, new child: Node?, new n: Node)
      requires old(allocated(child)) && old(allocated(n))
      requires old(Shape()) && x in old(nodes) && old(OnlyChild(x, child)) && Spliced(x, child)
      requires n in nodes && n == child
      ensures Linked(n)
    {
      assert old(Linked(n)) && old(Linked(x));
      if old(x.up) != null { assert old(Linked(x.up)); }
      if old(n.left) != null { assert old(Linked(n.left)); }
      if old(n.right) != null { assert old(Linked(n.right)); }
      if old(n.up) != null { assert old(Linked(n.up)); }
    }

    twostate lemma SplicedLinkedParent(x: Node, new child: Node?, new n: Node)
      requires old(allocated(child)) && old(allocated(n))
      requires old(Shape()) && x in old(nodes) && old(OnlyChild(x, child)) && Spliced(x, child)
      requires n in nodes && n == old(x.up)
      ensures Linked(n)
    {
      hide Sorted, Rooted, Closed;
      assert old(Linked(n)) && old(Linked(x));
      assert LeftOk(n) by {
        if child != null { assert old(Linked(child)); }
        if old(n.left) != null { assert old(Linked(n.left)); }
      }
      assert RightOk(n) by {
        if child != null { assert old(Linked(child)); }
        if old(n.right) != null { assert old(Linked(n.right)); }
      }
      assert UpOk(n) by { if old(n.up) != null { assert old(Linked(n.up)); } }
    }

    twostate lemma SplicedLinkedOther(x: Node, new child: Node?, new n: Node)
      requires old(allocated(child)) && old(allocated(n))
      requires old(Shape()) && x in old(nodes) && old(OnlyChild(x, child)) && Spliced(x, child)
      requires n in nodes && n != child && n != old(x.up)
      ensures Linked(n)
    {
      assert old(Linked(n)) && old(Linked(x));
      if child != null { assert old(Linked(child)); }
      if old(n.left) != null { assert old(Linked(n.left)); }
      if old(n.right) != null { assert old(Linked(n.right)); }
      if old(n.up) != null { assert old(Linked(n.up)); }
    }

    // Taking one element out of order keeps it sorted and within nodes.
    twostate lemma OrderAfterRemoval(x: Node)
      requires old(Shape()) && x in old(nodes) && nodes == old(nodes) - {x}
      requires 0 <= old(x.mid) < |old(order)| && order == old(order)[..old(x.mid)] + old(order)[old(x.mid) + 1..]
      ensures Sorted() && forall i :: 0 <= i < |order| ==> order[i] in nodes
    {
      assert old(Linked(x));
      forall i | 0 <= i < |order|
        ensures order[i] == if i < old(x.mid) then old(order)[i] else old(order)[i + 1]
        ensures order[i] in nodes
      {
        var m := old(order)[if i < old(x.mid) then i else i + 1];
        assert old(Linked(m));
      }
    }

    twostate lemma SplicedShape(x: Node, new child: Node?)
      requires old(allocated(child))
      requires old(Shape()) && x in old(nodes) && old(OnlyChild(x, child)) && Spliced(x, child)
      ensures Shape()
    {
      OrderAfterRemoval(x);
      forall n | n in nodes ensures Linked(n) {
        if n == child {
          SplicedLinkedChild(x, child, n);
        } else if n == old(x.up) {
          SplicedLinkedParent(x, child, n);
        } else {
          SplicedLinkedOther(x, child, n);
        }
      }
      ClosedFromLinked();
      SplicedRoot(x, child);
    }

    twostate lemma SplicedRoot(x: Node, new child: Node?)
      requires old(allocated(child))
      requires old(Shape()) && x in old(nodes) && old(OnlyChild(x, child)) && Spliced(x, child)
      ensures Rooted()
    {
      assert old(Linked(x));
      if child != null { assert old(Linked(child)); }
      if root == null {
        forall n | n in old(nodes) ensures n == x {
          assert old(Linked(n));
        }
      }
    }

    // What RB_REMOVE hands to RB_REMOVE_COLOR.
    ghost predicate RemoveColorReady(parent: Node?, child: Node?)
      reads this, nodes, parent
    {
      if parent == null then Valid()
      else if parent.left == child && parent.right == child then LeafPending(parent)
      else RemovePending(parent, child)
    }

    twostate lemma SplicedRanks(x: Node, new child: Node?)
      requires old(allocated(child))
      requires old(Valid()) && x in old(nodes) && old(OnlyChild(x, child)) && Spliced(x, child) && Shape()
      requires unchanged(nodes`rank, nodes`redLeft, nodes`redRight)
      ensures RemoveColorReady(old(x.up), child)
    {
      hide Sorted, Rooted, Closed;
      var p := old(x.up);
      assert old(Linked(x)) && old(Ranked(x));
      assert child != null ==> old(Linked(child)) && old(Ranked(child));
      assert p != null ==> old(Linked(p)) && old(Ranked(p));
      forall n | n in nodes && n != p ensures Ranked(n) {
        assert old(Ranked(n)) && old(Linked(n));
      }
    }

    lemma OneParent(x: Node)
      requires Shape()
      ensures forall n {:trigger n.left} {:trigger n.right} :: n in nodes && (n.left == x || n.right == x) ==> n == x.up
    {
      forall n | n in nodes && (n.left == x || n.right == x) ensures n == x.up {
        assert Linked(n);
      }
    }

    method Splice(x: Node, child: Node?)
      requires Valid() && x in nodes && OnlyChild(x, child)
      modifies this, nodes
      ensures nodes == old(nodes) - {x}
      ensures RemoveColorReady(old(x.up), child)
    {
      assert Linked(x) && (child != null ==> Linked(child)) && (x.up != null ==> Linked(x.up));
      OneParent(x);
      SpliceLinks(x, child);
      SplicedShape(x, child);
      SplicedRanks(x, child);
    }

    method SpliceLinks(x: Node, child: Node?)
      requires x in nodes && 0 <= x.mid < |order| && (child != null ==> child in nodes && child != x && child != x.up)
      requires x.up != null ==> x.up in nodes && x.up != x && (x.up.left == x || x.up.right == x) && x.up.left != x.up.right
      requires forall n {:trigger n.left} {:trigger n.right} :: n in nodes && (n.left == x || n.right == x) ==> n == x.up
      modifies this, nodes`left, nodes`right, nodes`up, nodes`first, nodes`mid, nodes`last
      ensures Spliced(x, child)
    {
      var parent := x.up;
      SwapChild(x, child);
      if child != null {
        child.up := parent;
      }
      ghost var i := x.mid;
      order := order[..i] + order[i + 1..];
      nodes := nodes - {x};
      CloseGap(i, i);
    }

    // RB_REMOVE of a node with two children: its successor s leaves its own
    // place to its right child and moves, with x's bits and rank, to x's.
    twostate predicate Replaced(x: Node, new s: Node)
      requires old(allocated(s))
      reads this, nodes, s
    {
      var i := old(x.mid);
      var sp := old(s.up);
      && nodes == old(nodes) - {x}
      && 0 <= i < |old(order)|
      && order == old(order)[..i] + old(order)[i + 1..]
      && root == (if old(x.up) == null then s else old(root))
      && s.left == old(x.left) && s.right == (if sp == x then old(s.right) else old(x.right)) && s.up == old(x.up)
      && s.first == old(x.first) && s.mid == i && s.last == old(x.last) - 1
      && (forall n {:trigger n.left} :: n in nodes && n != s ==>
           n.left == (if old(n.left) == x then s else if n == sp then old(s.right) else old(n.left)))
      && (forall n {:trigger n.right} :: n in nodes && n != s ==> n.right == (if old(n.right) == x then s else old(n.right)))
      && (forall n {:trigger n.up} :: n in nodes && n != s ==>
           n.up == (if n == old(s.right) then (if sp == x then s else sp)
                    else if n == old(x.left) || n == old(x.right) then s else old(n.up)))
      && (forall n {:trigger n.mid} :: n in nodes && n != s ==> n.mid == old(n.mid) - (if old(n.mid) > i then 1 else 0))
      && (forall n {:trigger n.first} :: n in nodes && n != s ==> n.first == old(n.first) - (if old(n.first) > i + 1 then 1 else 0))
      && (forall n {:trigger n.last} :: n in nodes && n != s ==> n.last == old(n.last) - (if old(n.last) > i + 1 then 1 else 0))
    }

    // s is the leftmost node of x's right subtree.
    ghost predicate Successor(x: Node, s: Node)
      reads this, nodes, s, s.up
    {
      && x in nodes && x.left != null && x.right != null
      && s in nodes && s != x && s.left == null && s.mid == x.mid + 1 && s.up != null
      && (s.up == x ==> x.right == s) && (s.up != x ==> s.up.left == s && s.first == s.up.first == x.mid + 1 && x.right != s)
    }

    twostate lemma ReplacedLinkedOther(x: Node, new s: Node, new n: Node)
      requires old(allocated(s)) && old(allocated(n))
      requires old(Shape() && Successor(x, s)) && Replaced(x, s)
      requires n in nodes && n != s && n != old(s.up) && n != old(s.right) && n != old(x.left) && n != old(x.right) && n != old(x.up)
      ensures Linked(n)
    {
      assert old(Linked(n)) && old(Linked(x)) && old(Linked(s));
      assert LeftOk(n) by { if old(n.left) != null { assert old(Linked(n.left)); } }
      assert RightOk(n) by { if old(n.right) != null { assert old(Linked(n.right)); } }
      assert UpOk(n) by { if old(n.up) != null { assert old(Linked(n.up)); } }
    }

    twostate lemma ReplacedLinkedHole(x: Node, new s: Node, new n: Node)
      requires old(allocated(s)) && old(allocated(n))
      requires old(Shape() && Successor(x, s)) && Replaced(x, s)
      requires n in nodes && n == old(s.up) && n != x
      ensures Linked(n)
    {
      assert old(Linked(n)) && old(Linked(x)) && old(Linked(s)) && old(Linked(s.up));
      assert LeftOk(n) by { if old(n.left) != null { assert old(Linked(n.left)); } }
      assert RightOk(n) by { if old(n.right) != null { assert old(Linked(n.right)); } }
      assert UpOk(n) by { if old(n.up) != null { assert old(Linked(n.up)); } }
    }

    twostate lemma ReplacedLinkedChild(x: Node, new s: Node, new n: Node)
      requires old(allocated(s)) && old(allocated(n))
      requires old(Shape() && Successor(x, s)) && Replaced(x, s)
      requires n in nodes && n == old(s.right)
      ensures Linked(n)
    {
      assert old(Linked(n)) && old(Linked(x)) && old(Linked(s)) && old(Linked(s.up));
      assert LeftOk(n) by { if old(n.left) != null { assert old(Linked(n.left)); } }
      assert RightOk(n) by { if old(n.right) != null { assert old(Linked(n.right)); } }
      assert UpOk(n) by { if old(n.up) != null { assert old(Linked(n.up)); } }
    }

    twostate lemma ReplacedLinkedLeft(x: Node, new s: Node, new n: Node)
      requires old(allocated(s)) && old(allocated(n))
      requires old(Shape() && Successor(x, s)) && Replaced(x, s)
      requires n in nodes && n == old(x.left)
      ensures Linked(n)
    {
      assert old(Linked(n)) && old(Linked(x)) && old(Linked(s)) && old(Linked(s.up));
      assert LeftOk(n) by { if old(n.left) != null { assert old(Linked(n.left)); } }
      assert RightOk(n) by { if old(n.right) != null { assert old(Linked(n.right)); } }
      assert UpOk(n) by { if old(n.up) != null { assert old(Linked(n.up)); } }
    }

    twostate lemma ReplacedLinkedRight(x: Node, new s: Node, new n: Node)
      requires old(allocated(s)) && old(allocated(n))
      requires old(Shape() && Successor(x, s)) && Replaced(x, s)
      requires n in nodes && n == old(x.right) && n != s && n != old(s.up)
      ensures Linked(n)
    {
      assert old(Linked(n)) && old(Linked(x)) && old(Linked(s)) && old(Linked(s.up));
      assert LeftOk(n) by { if old(n.left) != null { assert old(Linked(n.left)); } }
      assert RightOk(n) by { if old(n.right) != null { assert old(Linked(n.right)); } }
      assert UpOk(n) by { if old(n.up) != null { assert old(Linked(n.up)); } }
    }

    twostate lemma ReplacedLinkedUp(x: Node, new s: Node, new n: Node)
      requires old(allocated(s)) && old(allocated(n))
      requires old(Shape() && Successor(x, s)) && Replaced(x, s)
      requires n in nodes && n == old(x.up)
      ensures Linked(n)
    {
      hide Sorted, Rooted, Closed;
      assert old(Linked(n)) && old(Linked(x)) && old(Linked(s));
      assert old(Linked(x.right)) && old(x.last) > old(x.mid) + 1;
      assert LeftOk(n) by { if old(n.left) != null { assert old(Linked(n.left)); } }
      assert RightOk(n) by { if old(n.right) != null { assert old(Linked(n.right)); } }
      assert UpOk(n) by { if old(n.up) != null { assert old(Linked(n.up)); } }
    }

    twostate lemma ReplacedLinkedSelf(x: Node, new s: Node)
      requires old(allocated(s))
      requires old(Shape() && Successor(x, s)) && Replaced(x, s)
      ensures s in nodes && Linked(s)
    {
      assert old(Linked(x)) && old(Linked(s)) && old(Linked(s.up));
      assert LeftOk(s) by { assert old(Linked(x.left)); }
      assert RightOk(s) by {
        assert old(Linked(x.right));
        if old(s.right) != null { assert old(Linked(s.right)); }
      }
      assert UpOk(s) by { if old(x.up) != null { assert old(Linked(x.up)); } }
    }

    twostate lemma ReplacedRoot(x: Node, new s: Node)
      requires old(allocated(s))
      requires old(Shape() && Successor(x, s)) && Replaced(x, s)
      ensures Rooted()
    {
      assert old(Linked(x)) && old(Linked(s));
      assert old(root) != null ==> old(Linked(root));
    }

    twostate lemma ReplacedShape(x: Node, new s: Node)
      requires old(allocated(s))
      requires old(Shape() && Successor(x, s)) && Replaced(x, s)
      ensures Shape()
    {
      OrderAfterRemoval(x);
      forall n | n in nodes ensures Linked(n) {
        ReplacedLinked(x, s, n);
      }
      ClosedFromLinked();
      ReplacedRoot(x, s);
    }

    twostate lemma ReplacedLinked(x: Node, new s: Node, new n: Node)
      requires old(allocated(s)) && old(allocated(n))
      requires old(Shape() && Successor(x, s)) && Replaced(x, s)
      requires n in nodes
      ensures Linked(n)
    {
      if n == s {
        ReplacedLinkedSelf(x, s);
      } else if n == old(s.up) {
        ReplacedLinkedHole(x, s, n);
      } else if n == old(s.right) {
        ReplacedLinkedChild(x, s, n);
      } else if n == old(x.left) {
        ReplacedLinkedLeft(x, s, n);
      } else if n == old(x.right) {
        ReplacedLinkedRight(x, s, n);
      } else if n == old(x.up) {
        ReplacedLinkedUp(x, s, n);
      } else {
        ReplacedLinkedOther(x, s, n);
      }
    }

    twostate lemma ReplacedRanks(x: Node, new s: Node)
      requires old(allocated(s))
      requires old(Valid() && Successor(x, s)) && Replaced(x, s) && Shape() && s in nodes
      requires unchanged((nodes - {s})`rank, (nodes - {s})`redLeft, (nodes - {s})`redRight)
      requires s.rank == old(x.rank) && s.redLeft == old(x.redLeft) && s.redRight == old(x.redRight)
      ensures RemoveColorReady(if old(s.up) == x then s else old(s.up), old(s.right))
    {
      hide Sorted, Rooted, Closed;
      var p := if old(s.up) == x then s else old(s.up);
      assert old(Linked(x)) && old(Ranked(x)) && old(Linked(s)) && old(Ranked(s));
      assert old(Linked(s.up)) && old(Ranked(s.up));
      assert old(s.right) != null ==> old(Linked(s.right)) && old(Ranked(s.right));
      forall n | n in nodes && n != p ensures Ranked(n) {
        if n != s {
          assert old(Ranked(n)) && old(Linked(n));
        }
      }
    }

    // The nodes around x and its successor s are pairwise distinct.
    ghost predicate Apart(x: Node, s: Node, l: Node, r: Node, c: Node?, sp: Node, p: Node?)
      reads this`nodes, x`left, x`right, x`up, s`right, s`up, Opt(p)`left, Opt(p)`right, sp`left
    {
      && {x, s, l, r, sp} <= nodes && x.left == l && x.right == r && x.up == p && s.right == c && s.up == sp
      && s != x && l != x && l != s && r != x && l != r && sp != s && sp != l
      && (sp == x <==> r == s) && (sp != x ==> sp.left == s)
      && (c != null ==> c in nodes && c != x && c != s && c != l && c != r && c != sp)
      && (p != null ==> p in nodes && p != x && p != s && p != l && p != r && p != c && p != sp && (p.left == x || p.right == x) && p.left != p.right)
    }

    lemma SuccessorApart(x: Node, s: Node)
      requires Shape() && Successor(x, s)
      ensures Apart(x, s, x.left, x.right, s.right, s.up, x.up)
    {
      assert Linked(x) && Linked(s) && Linked(s.up) && Linked(x.left) && Linked(x.right);
      if s.right != null { assert Linked(s.right); }
      if x.up != null { assert Linked(x.up); }
    }

    // First half of the pointer work: s hands its place to its right child.
    method Unhook(x: Node, s: Node) returns (parent: Node, child: Node?)
      requires x.right != null && s.up != null && s != x && x.right != x
      requires s.up != x ==> s.up != s && s != x.right
      requires x.right == s <==> s.up == x
      modifies x`right, s.up`left, x.right`up
      ensures child == old(s.right)
      ensures if old(x.right) == s then parent == s && x.right == child && unchanged(s`up) && unchanged(x`left)
        else parent == old(s.up) && parent.left == child && old(x.right).up == s && unchanged(x`right)
    {
      child := s.right;
      if x.right == s {
        x.right := child;
        parent := s;
      } else {
        parent := s.up;
        parent.left := child;
        x.right.up := s;
      }
    }

    // Second half: s takes over x's links and bits.
    method TakePlace(x: Node, s: Node, parent: Node, child: Node?)
      requires s != x && x.left != null && x.left != s && x.left != x && x.up != s && x.up != x && x.up != x.left
      requires child != null ==> child != s && child != x.left && child != x && child != x.up
      requires x.up != null ==> x.up.left == x || x.up.right == x
      modifies this`root, x.left`up, s`left, s`right, s`up, s`redLeft, s`redRight, Opt(child)`up, Opt(x.up)`left, Opt(x.up)`right
      ensures x.left.up == s && (child != null ==> child.up == parent)
      ensures s.left == x.left && s.right == x.right && s.up == x.up && s.redLeft == x.redLeft && s.redRight == x.redRight
      ensures root == (if x.up == null then s else old(root))
      ensures x.up != null ==>
        if old(x.up.left) == x then x.up.left == s && x.up.right == old(x.up.right)
        else x.up.right == s && x.up.left == old(x.up.left)
    {
      x.left.up := s;
      s.left, s.right, s.up, s.redLeft, s.redRight := x.left, x.right, x.up, x.redLeft, x.redRight;
      SwapChild(x, s);
      if child != null {
        child.up := parent;
      }
    }

    ghost method TakePosition(x: Node, s: Node)
      requires s in nodes && x in nodes && s != x && 0 <= x.mid < |order|
      modifies this`nodes, this`order, nodes`first, nodes`mid, nodes`last, s`rank
      ensures nodes == old(nodes) - {x} && order == old(order)[..old(x.mid)] + old(order)[old(x.mid) + 1..]
      ensures s.first == old(x.first) && s.mid == old(x.mid) && s.last == old(x.last) - 1 && s.rank == old(x.rank)
      ensures forall n {:trigger n.mid} :: n in nodes && n != s ==> n.mid == old(n.mid) - (if old(n.mid) > old(x.mid) then 1 else 0)
      ensures forall n {:trigger n.first} :: n in nodes && n != s ==> n.first == old(n.first) - (if old(n.first) > old(x.mid) + 1 then 1 else 0)
      ensures forall n {:trigger n.last} :: n in nodes && n != s ==> n.last == old(n.last) - (if old(n.last) > old(x.mid) + 1 then 1 else 0)
    {
      var i := x.mid;
      order := order[..i] + order[i + 1..];
      nodes := nodes - {x};
      CloseGap(i, i + 1);
      s.first, s.mid, s.last, s.rank := x.first, i, x.last - 1, x.rank;
    }

    // The links of RB_REMOVE for two children.
    method ReplacePointers(x: Node, s: Node) returns (parent: Node, child: Node?)
      requires x in nodes && x.left != null && x.right != null && s.up != null
      requires Apart(x, s, x.left, x.right, s.right, s.up, x.up)
      requires forall n {:trigger n.left} {:trigger n.right} :: n in nodes && (n.left == x || n.right == x) ==> n == x.up
      modifies this`root, nodes`left, nodes`right, nodes`up, s`redLeft, s`redRight
      ensures child == old(s.right) && parent == (if old(s.up) == x then s else old(s.up))
      ensures root == (if old(x.up) == null then s else old(root))
      ensures s.left == old(x.left) && s.right == (if old(s.up) == x then old(s.right) else old(x.right)) && s.up == old(x.up)
      ensures s.redLeft == old(x.redLeft) && s.redRight == old(x.redRight)
      ensures forall n {:trigger n.left} :: n in nodes && n != s && n != x ==>
        n.left == (if old(n.left) == x then s else if n == old(s.up) then old(s.right) else old(n.left))
      ensures forall n {:trigger n.right} :: n in nodes && n != s && n != x ==> n.right == (if old(n.right) == x then s else old(n.right))
      ensures forall n {:trigger n.up} :: n in nodes && n != s && n != x ==>
        n.up == (if n == old(s.right) then (if old(s.up) == x then s else old(s.up))
                 else if n == old(x.left) || n == old(x.right) then s else old(n.up))
    {
      parent, child := Unhook(x, s);
      TakePlace(x, s, parent, child);
    }

    // The pointer part of RB_REMOVE for two children, before the colours.
    method ReplaceLinks(x: Node, s: Node) returns (parent: Node, child: Node?)
      requires x in nodes && x.left != null && x.right != null && s.up != null && 0 <= x.mid < |order|
      requires Apart(x, s, x.left, x.right, s.right, s.up, x.up)
      requires forall n {:trigger n.left} {:trigger n.right} :: n in nodes && (n.left == x || n.right == x) ==> n == x.up
      modifies this, nodes
      ensures Replaced(x, s) && child == old(s.right) && parent == (if old(s.up) == x then s else old(s.up))
      ensures s.rank == old(x.rank) && s.redLeft == old(x.redLeft) && s.redRight == old(x.redRight)
      ensures unchanged((old(nodes) - {s})`rank, (old(nodes) - {s})`redLeft, (old(nodes) - {s})`redRight)
    {
      parent, child := ReplacePointers(x, s);
      TakePosition(x, s);
    }

    method Replace(x: Node, s: Node) returns (parent: Node, child: Node?)
      requires Valid() && Successor(x, s)
      modifies this, nodes
      ensures nodes == old(nodes) - {x}
      ensures RemoveColorReady(parent, child)
    {
      assert Linked(x);
      SuccessorApart(x, s);
      OneParent(x);
      parent, child := ReplaceLinks(x, s);
      ReplacedShape(x, s);
      ReplacedRanks(x, s);
    }

    // The descent of RB_REMOVE to the leftmost node of the right subtree.
    method FindSuccessor(x: Node) returns (s: Node)
      requires Shape() && x in nodes && x.left != null && x.right != null
      ensures Successor(x, s)
    {
      assert Linked(x);
      s := x.right;
      assert Linked(s);
      while s.left != null
        invariant s in nodes && s.first == x.mid + 1 && s.up != null && s != x
        invariant s.up == x ==> x.right == s
        invariant s.up != x ==> s.up.left == s && s.up.first == x.mid + 1 && x.right != s
        decreases s.last
      {
        assert Linked(s);
        s := s.left;
        assert Linked(s);
      }
      assert Linked(s);
    }

    // RB_REMOVE: exactly elm leaves, and the tree is balanced again.
    method Remove(elm: Node)
      requires Valid() && elm in nodes
      modifies this, nodes
      ensures Valid() && nodes == old(nodes) - {elm}
      ensures Keys() == old(Keys()) - {elm.key}
    {
      KeysDistinct();
      var parent, child;
      if elm.left == null {
        parent, child := elm.up, elm.right;
        Splice(elm, child);
      } else if elm.right == null {
        parent, child := elm.up, elm.left;
        Splice(elm, child);
      } else {
        var s := FindSuccessor(elm);
        parent, child := Replace(elm, s);
      }
      if parent != null {
        RemoveColor(parent, child);
      }
    }

    lemma KeysDistinct()
      requires Shape()
      ensures forall m, n :: m in nodes && n in nodes && m.key == n.key ==> m == n
    {
      forall m, n | m in nodes && n in nodes && m.key == n.key ensures m == n {
        assert Linked(m) && Linked(n);
      }
    }

    // RB_FIND, with the number of comparisons it makes.
    method Find(key: int) returns (found: Node?, ghost comparisons: nat)
      requires Valid()
      ensures found != null ==> found in nodes && found.key == key
      ensures found == null ==> key !in Keys()
      ensures Words.Pow2(comparisons) <= (|nodes| + 1) * (|nodes| + 1)
    {
      var tmp := root;
      ghost var lo, hi := 0, |order|;
      comparisons := 0;
      found := null;
      while tmp != null
        invariant 0 <= lo <= hi <= |order|
        invariant tmp != null ==> tmp in nodes && tmp.first == lo && tmp.last == hi
        invariant tmp == null ==> lo == hi
        invariant forall j :: 0 <= j < lo ==> order[j].key < key
        invariant forall j :: hi <= j < |order| ==> key < order[j].key
        invariant comparisons + Height(tmp) <= Height(root)
        decreases hi - lo + (if tmp == null then 0 else 1)
      {
        assert Linked(tmp);
        comparisons := comparisons + 1;
        if key < tmp.key {
          hi := tmp.mid;
          tmp := tmp.left;
        } else if key > tmp.key {
          lo := tmp.mid + 1;
          tmp := tmp.right;
        } else {
          found := tmp;
          break;
        }
        if tmp != null {
          assert Linked(tmp);
        }
      }
      HeightBound();
      Pow2Monotonic(comparisons, Height(root));
      if found == null {
        forall n | n in nodes ensures n.key != key {
          assert Linked(n);
        }
      }
    }

    // Longest path below n, in nodes.
    ghost function Height(n: Node?): nat
      requires Shape() && (n == null || n in nodes)
      reads this, nodes
      decreases if n == null then 0 else 1 + RankSpan(n)
    {
      if n == null then 0
      else
        assert Linked(n);
        assert n.left != null ==> Linked(n.left);
        assert n.right != null ==> Linked(n.right);
        1 + Max(Height(n.left), Height(n.right))
    }

    ghost function RankSpan(n: Node): nat
      reads n
    {
      if n.last < n.first then 0 else n.last - n.first
    }

    ghost function Span(n: Node?): int
      reads Opt(n)`first, Opt(n)`last
    {
      if n == null then 0 else n.last - n.first
    }

    lemma {:induction false} HeightByRank(n: Node?)
      requires Valid() && (n == null || n in nodes)
      ensures RankOf(n) >= -1 && Height(n) <= RankOf(n) + 1
      ensures Span(n) >= 0 && Words.Pow2(RankOf(n) + 1) <= (Span(n) + 1) * (Span(n) + 1)
      decreases if n == null then 0 else 1 + RankSpan(n)
    {
      if n != null {
        assert Linked(n) && Ranked(n);
        if n.left != null { assert Linked(n.left); }
        if n.right != null { assert Linked(n.right); }
        HeightByRank(n.left);
        HeightByRank(n.right);
        assert Span(n) == Span(n.left) + 1 + Span(n.right);
        SizeStep(n.rank, RankOf(n.left), RankOf(n.right), Span(n.left), Span(n.right));
      }
    }

    // The header's 2 lg (n+1), with both sides raised to the power of two.
    lemma HeightBound()
      requires Valid()
      ensures Words.Pow2(Height(root)) <= (|nodes| + 1) * (|nodes| + 1)
    {
      HeightByRank(root);
      Pow2Monotonic(Height(root), RankOf(root) + 1);
      NodeCount();
    }

    lemma NodeCount()
      requires Shape()
      ensures |nodes| == |order|
    {
      forall n | n in nodes ensures n in order {
        assert Linked(n);
      }
      assert nodes == set i | 0 <= i < |order| :: order[i];
      CountDistinct(order);
    }

    // RB_NFIND: the node with the least key not below the given one.
    method NFind(key: int) returns (res: Node?)
      requires Valid()
      ensures res != null ==> res in nodes && key <= res.key && forall n :: n in nodes && key <= n.key ==> res.key <= n.key
      ensures res == null ==> forall n :: n in nodes ==> n.key < key
    {
      var tmp := root;
      ghost var lo, hi := 0, |order|;
      res := null;
      while tmp != null
        invariant 0 <= lo <= hi <= |order|
        invariant tmp != null ==> tmp in nodes && tmp.first == lo && tmp.last == hi
        invariant tmp == null ==> lo == hi
        invariant forall j :: 0 <= j < lo ==> order[j].key < key
        invariant if hi == |order| then res == null else res == order[hi] && key < res.key
        decreases hi - lo + (if tmp == null then 0 else 1)
      {
        assert Linked(tmp);
        if key < tmp.key {
          res := tmp;
          hi := tmp.mid;
          tmp := tmp.left;
        } else if key > tmp.key {
          lo := tmp.mid + 1;
          tmp := tmp.right;
        } else {
          OrderCovers();
          return tmp;
        }
        if tmp != null {
          assert Linked(tmp);
        }
      }
      OrderCovers();
    }

    // Every node of the tree is an element of order.
    lemma OrderCovers()
      requires Shape()
      ensures forall n :: n in nodes ==> 0 <= n.mid < |order| && order[n.mid] == n
    {
      forall n | n in nodes ensures 0 <= n.mid < |order| && order[n.mid] == n {
        assert Linked(n);
      }
    }

    // RB_MINMAX: the first or the last node in key order.
    method MinMax(val: int) returns (parent: Node?)
      requires Valid()
      ensures if order == [] then parent == null
        else parent == if val < 0 then order[0] else order[|order| - 1]
    {
      var tmp := root;
      parent := null;
      while tmp != null
        invariant tmp != null ==> tmp in nodes && (if val < 0 then tmp.first == 0 else tmp.last == |order|)
        invariant parent == null ==> tmp == root
        invariant parent != null ==> order != [] && (tmp == null ==> parent == if val < 0 then order[0] else order[|order| - 1])
        decreases if tmp == null then 0 else 1 + RankSpan(tmp)
      {
        assert Linked(tmp);
        parent := tmp;
        if val < 0 {
          tmp := tmp.left;
        } else {
          tmp := tmp.right;
        }
        if tmp != null {
          assert Linked(tmp);
        }
      }
    }

    // RB_NEXT: the node behind elm0 in key order.
    method Next(elm0: Node) returns (elm: Node?)
      requires Valid() && elm0 in nodes
      ensures 0 <= elm0.mid < |order| && order[elm0.mid] == elm0
      ensures elm == if elm0.mid + 1 < |order| then order[elm0.mid + 1] else null
    {
      elm := elm0;
      assert Linked(elm);
      if elm.right != null {
        elm := elm.right;
        assert Linked(elm);
        while elm.left != null
          invariant elm != null && elm in nodes && elm.first == elm0.mid + 1
          decreases if elm == null then 0 else RankSpan(elm)
        {
          assert Linked(elm);
          elm := elm.left;
          assert Linked(elm);
        }
        assert Linked(elm);
      } else if elm.up != null && elm == elm.up.left {
        assert Linked(elm.up);
        elm := elm.up;
      } else {
        while elm.up != null && elm == elm.up.right
          invariant elm != null && elm in nodes && elm.last == elm0.mid + 1
          decreases if elm == null then 0 else |order| - RankSpan(elm)
        {
          assert Linked(elm) && Linked(elm.up);
          elm := elm.up;
        }
        assert Linked(elm);
        elm := elm.up;
        if elm != null {
          assert Linked(elm);
        }
      }
    }

    // RB_PREV: the node before elm0 in key order.
    method Prev(elm0: Node) returns (elm: Node?)
      requires Valid() && elm0 in nodes
      ensures 0 <= elm0.mid < |order| && order[elm0.mid] == elm0
      ensures elm == if elm0.mid > 0 then order[elm0.mid - 1] else null
    {
      elm := elm0;
      assert Linked(elm);
      if elm.left != null {
        elm := elm.left;
        assert Linked(elm);
        while elm.right != null
          invariant elm != null && elm in nodes && elm.last == elm0.mid
          decreases if elm == null then 0 else RankSpan(elm)
        {
          assert Linked(elm);
          elm := elm.right;
          assert Linked(elm);
        }
        assert Linked(elm);
      } else if elm.up != null && elm == elm.up.right {
        assert Linked(elm.up);
        elm := elm.up;
      } else {
        while elm.up != null && elm == elm.up.left
          invariant elm != null && elm in nodes && elm.first == elm0.mid
          decreases if elm == null then 0 else |order| - RankSpan(elm)
        {
          assert Linked(elm) && Linked(elm.up);
          elm := elm.up;
        }
        assert Linked(elm);
        elm := elm.up;
        if elm != null {
          assert Linked(elm);
        }
      }
    }

    // RB_FOREACH: every node once, in increasing order.
    method ForEach() returns (visited: seq<Node>)
      requires Valid()
      ensures visited == order && Sorted()
      ensures forall n :: n in nodes <==> n in visited
    {
      visited := [];
      var x := MinMax(-1);
      while x != null
        invariant |visited| <= |order| && visited == order[..|visited|]
        invariant x == if |visited| < |order| then order[|visited|] else null
        decreases |order| - |visited|
      {
        assert order[|visited|] in nodes;
        var y := Next(x);
        assert x.mid == |visited| by {
          assert Linked(order[|visited|]);
          KeysDistinct();
        }
        visited := visited + [x];
        x := y;
      }
      OrderCovers();
    }

    // RB_PREV undoes RB_NEXT.
    method NextThenPrev(elm: Node) returns (next: Node?, back: Node?)
      requires Valid() && elm in nodes
      ensures next == null <==> forall n :: n in nodes ==> n.key <= elm.key
      ensures next != null ==> back == elm
    {
      next := Next(elm);
      back := null;
      OrderCovers();
      if next != null {
        assert next in nodes && next.key > elm.key;
        back := Prev(next);
      }
    }

    // One step of a run: true inserts a key, false removes it if present.
    method Step(insert: bool, key: int)
      requires Valid()
      modifies this, nodes
      ensures Valid() && fresh(nodes - old(nodes))
      ensures Keys() == if insert then old(Keys()) + {key} else old(Keys()) - {key}
    {
      if insert {
        var elm := new Node(key);
        var found := Insert(elm);
        assert found != null ==> key in old(Keys());
      } else {
        var found, _ := Find(key);
        if found != null {
          Remove(found);
        }
      }
    }

    // Any run of insertions and removals.
    method Run(ops: seq<(bool, int)>)
      requires Valid()
      modifies this, nodes
      ensures Valid() && fresh(nodes - old(nodes))
      ensures Keys() == KeysAfter(old(Keys()), ops)
      ensures Words.Pow2(Height(root)) <= (|nodes| + 1) * (|nodes| + 1)
    {
      for i := 0 to |ops|
        invariant Valid() && fresh(nodes - old(nodes))
        invariant Keys() == KeysAfter(old(Keys()), ops[..i])
      {
        assert ops[..i + 1][..i] == ops[..i];
        Step(ops[i].0, ops[i].1);
      }
      assert ops[..|ops|] == ops;
      HeightBound();
    }
  }

  // What a run of insertions (true) and removals (false) does to a set of keys.
  ghost function KeysAfter(keys: set<int>, ops: seq<(bool, int)>): set<int> {
    if ops == [] then keys
    else
      var before := KeysAfter(keys, ops[..|ops| - 1]);
      var (insert, key) := ops[|ops| - 1];
      if insert then before + {key} else before - {key}
  }

  function Max(a: int, b: int): int {
    if a < b then b else a
  }

  lemma {:induction false} Pow2Monotonic(m: nat, n: nat)
    requires m <= n
    ensures Words.Pow2(m) <= Words.Pow2(n)
  {
    if m < n {
      Pow2Monotonic(m, n - 1);
    }
  }

  lemma SquareOfSum(a: nat, b: nat, x: nat)
    requires x <= a * a && x <= b * b
    ensures 4 * x <= (a + b) * (a + b)
  {
    assert x <= a * b by {
      if a <= b {
        assert a * a <= a * b;
      } else {
        assert b * b <= a * b;
      }
    }
    assert (a + b) * (a + b) == a * a + 2 * (a * b) + b * b;
  }

  lemma {:induction false} CountDistinct(s: seq<Node>)
    requires forall i, j :: 0 <= i < j < |s| ==> s[i].key < s[j].key
    ensures |set i | 0 <= i < |s| :: s[i]| == |s|
  {
    if s != [] {
      var t := s[..|s| - 1];
      CountDistinct(t);
      var last := s[|s| - 1];
      assert (set i | 0 <= i < |s| :: s[i]) == (set i | 0 <= i < |t| :: t[i]) + {last};
    }
  }

  // The arithmetic of one node: children at most two ranks down.
  lemma SizeStep(r: int, rl: int, rr: int, sl: nat, sr: nat)
    requires rl >= -1 && rr >= -1 && rl + 1 <= r <= rl + 2 && rr + 1 <= r <= rr + 2
    requires Words.Pow2(rl + 1) <= (sl + 1) * (sl + 1) && Words.Pow2(rr + 1) <= (sr + 1) * (sr + 1)
    ensures r >= 0 && Words.Pow2(r + 1) <= (sl + 1 + sr + 1) * (sl + 1 + sr + 1)
  {
    if r == 0 {
      SquareOfSum(sl + 1, sr + 1, 1);
    } else {
      Pow2Monotonic(r - 1, rl + 1);
      Pow2Monotonic(r - 1, rr + 1);
      SquareOfSum(sl + 1, sr + 1, Words.Pow2(r - 1));
      assert Words.Pow2(r + 1) == 4 * Words.Pow2(r - 1);
    }
  }
}
