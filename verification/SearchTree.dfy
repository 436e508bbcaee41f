/**
 The BSD red-black tree of tree.h, reduced to what its clients can observe: the
 descents of RB_FIND and RB_INSERT, steered by a comparator, on a tree of any
 shape. Rotations never change the in-order sequence, so a fact about every shape
 with a given in-order sequence is a fact about every way of balancing the tree.

 A comparator is given as the function `cmp` of a stored element that compares the
 probe with it: negative sends the descent left, positive right, zero is a hit.
 */
module SearchTree {
  import opened Common

  datatype Tree<T> = Leaf | Node(left: Tree<T>, elem: T, right: Tree<T>)

  function InOrder<T>(t: Tree<T>): seq<T> {
    match t
    case Leaf => []
    case Node(l, e, r) => InOrder(l) + [e] + InOrder(r)
  }

  /** RB_FIND, returning the in-order position of the element it stops at. */
  function FindPos<T>(t: Tree<T>, cmp: T -> int): (p: Option<nat>)
    ensures p.Some? ==> p.value < |InOrder(t)| && cmp(InOrder(t)[p.value]) == 0
  {
    match t
    case Leaf => None
    case Node(l, e, r) =>
      if cmp(e) < 0 then FindPos(l, cmp)
      else if cmp(e) > 0 then
        match FindPos(r, cmp)
        case None => None
        case Some(p) => Some(|InOrder(l)| + 1 + p)
      else Some(|InOrder(l)|)
  }

  /** The in-order position at which RB_INSERT hangs a new leaf, when it does not collide. */
  function InsertPos<T>(t: Tree<T>, cmp: T -> int): (p: nat)
    ensures p <= |InOrder(t)|
  {
    match t
    case Leaf => 0
    case Node(l, e, r) =>
      if cmp(e) < 0 then InsertPos(l, cmp) else |InOrder(l)| + 1 + InsertPos(r, cmp)
  }

  /** RB_INSERT before rebalancing: the tree is left alone when an element compares equal. */
  function Insert<T>(t: Tree<T>, x: T, cmp: T -> int): Tree<T> {
    match t
    case Leaf => Node(Leaf, x, Leaf)
    case Node(l, e, r) =>
      if cmp(e) < 0 then Node(Insert(l, x, cmp), e, r)
      else if cmp(e) > 0 then Node(l, e, Insert(r, x, cmp))
      else t
  }

  function InsertAt<T>(s: seq<T>, p: nat, x: T): (r: seq<T>)
    requires p <= |s|
    ensures |r| == |s| + 1 && r[p] == x
    ensures forall j :: 0 <= j < p ==> r[j] == s[j]
    ensures forall j :: p < j < |r| ==> r[j] == s[j - 1]
  {
    s[..p] + [x] + s[p..]
  }

  lemma {:induction false} InsertKeepsOrder<T>(t: Tree<T>, x: T, cmp: T -> int)
    ensures FindPos(t, cmp).Some? ==> Insert(t, x, cmp) == t
    ensures FindPos(t, cmp).None? ==>
              InOrder(Insert(t, x, cmp)) == InsertAt(InOrder(t), InsertPos(t, cmp), x)
  {
    match t
    case Leaf =>
    case Node(l, e, r) =>
      if cmp(e) < 0 {
        InsertKeepsOrder(l, x, cmp);
      } else if cmp(e) > 0 {
        InsertKeepsOrder(r, x, cmp);
      }
  }

  /** An in-place write to the element at in-order position `p`; the shape does not change. */
  function Write<T>(t: Tree<T>, p: nat, x: T): (r: Tree<T>)
    requires p < |InOrder(t)|
    ensures InOrder(r) == InOrder(t)[p := x]
  {
    match t
    case Node(l, e, r) =>
      if p < |InOrder(l)| then Node(Write(l, p, x), e, r)
      else if p == |InOrder(l)| then Node(l, x, r)
      else Node(l, e, Write(r, p - |InOrder(l)| - 1, x))
  }

  /** Every element before `i` sends the probe right, every element after it sends it left. */
  ghost predicate Separates<T>(s: seq<T>, cmp: T -> int, i: nat) {
    && i < |s| && cmp(s[i]) == 0
    && (forall j :: 0 <= j < i ==> cmp(s[j]) > 0)
    && (forall j :: i < j < |s| ==> cmp(s[j]) < 0)
  }

  ghost predicate FoundInEveryShape<T(!new)>(s: seq<T>, cmp: T -> int, i: nat) {
    forall t: Tree<T> :: InOrder(t) == s ==> FindPos(t, cmp) == Some(i)
  }

  ghost predicate MissedInEveryShape<T(!new)>(s: seq<T>, cmp: T -> int) {
    forall t: Tree<T> :: InOrder(t) == s ==> FindPos(t, cmp) == None
  }

  lemma {:induction false} SeparatedIsFound<T>(t: Tree<T>, cmp: T -> int, i: nat)
    requires Separates(InOrder(t), cmp, i)
    ensures FindPos(t, cmp) == Some(i)
  {
    var Node(l, e, r) := t;
    var s, n := InOrder(t), |InOrder(l)|;
    assert s[n] == e;
    assert InOrder(l) == s[..n] && InOrder(r) == s[n + 1..];
    if cmp(e) < 0 {
      SeparatedIsFound(l, cmp, i);
    } else if cmp(e) > 0 {
      SeparatedIsFound(r, cmp, i - n - 1);
    }
  }

  /** A tree with a chosen root: everything else hangs below it as a list. */
  function Spine<T>(s: seq<T>): (t: Tree<T>)
    ensures InOrder(t) == s
  {
    if s == [] then Leaf else Node(Leaf, s[0], Spine(s[1..]))
  }

  function Rooted<T>(s: seq<T>, j: nat): (t: Tree<T>)
    requires j < |s|
    ensures InOrder(t) == s && t.Node? && t.elem == s[j] && |InOrder(t.left)| == j
  {
    Node(Spine(s[..j]), s[j], Spine(s[j + 1..]))
  }

  /** Lookup of the element at position `i` succeeds however the tree is balanced exactly when
      every earlier element compares below the probe and every later one above it. */
  lemma ExactInEveryShape<T(!new)>(s: seq<T>, cmp: T -> int, i: nat)
    requires i < |s|
    ensures FoundInEveryShape(s, cmp, i) <==> Separates(s, cmp, i)
  {
    if Separates(s, cmp, i) {
      forall t: Tree<T> | InOrder(t) == s ensures FindPos(t, cmp) == Some(i) {
        SeparatedIsFound(t, cmp, i);
      }
    }
    if FoundInEveryShape(s, cmp, i) {
      forall j | 0 <= j < |s|
        ensures j < i ==> cmp(s[j]) > 0
        ensures j == i ==> cmp(s[j]) == 0
        ensures j > i ==> cmp(s[j]) < 0
      {
        var t := Rooted(s, j);
        assert FindPos(t, cmp) == Some(i);
      }
    }
  }

  /** A probe misses in every shape exactly when it equals no element; otherwise some shape,
      the one rooted at the equal element, answers it. */
  lemma MissedExactlyWhenAbsent<T(!new)>(s: seq<T>, cmp: T -> int)
    ensures MissedInEveryShape(s, cmp) <==> forall j :: 0 <= j < |s| ==> cmp(s[j]) != 0
  {
    if MissedInEveryShape(s, cmp) {
      forall j | 0 <= j < |s| ensures cmp(s[j]) != 0 {
        assert FindPos(Rooted(s, j), cmp) == None;
      }
    }
  }

  /** The stored sequence agrees with the comparator: once an element is not above the probe,
      every earlier one is strictly below it. */
  ghost predicate Ordered<T>(s: seq<T>, cmp: T -> int) {
    forall i, j :: 0 <= i < j < |s| && cmp(s[j]) >= 0 ==> cmp(s[i]) > 0
  }

  /** In an ordered tree a descent finds an equal element if there is one. */
  lemma OrderedFinds<T>(t: Tree<T>, cmp: T -> int, i: nat)
    requires Ordered(InOrder(t), cmp) && i < |InOrder(t)| && cmp(InOrder(t)[i]) == 0
    ensures FindPos(t, cmp) == Some(i)
  {
    SeparatedIsFound(t, cmp, i);
  }

  ghost predicate SplitsAt<T>(s: seq<T>, cmp: T -> int, p: nat) {
    && p <= |s|
    && (forall j :: 0 <= j < p ==> cmp(s[j]) > 0)
    && (forall j :: p <= j < |s| ==> cmp(s[j]) < 0)
  }

  /** In an ordered tree a new leaf goes to the only position that keeps smaller elements before
      it and larger ones after it, whatever the shape. */
  lemma {:induction false} OrderedInsertPos<T>(t: Tree<T>, cmp: T -> int)
    requires Ordered(InOrder(t), cmp) && FindPos(t, cmp).None?
    ensures SplitsAt(InOrder(t), cmp, InsertPos(t, cmp))
  {
    match t
    case Leaf =>
    case Node(l, e, r) =>
      var s, n := InOrder(t), |InOrder(l)|;
      assert s[n] == e && s[..n] == InOrder(l) && s[n + 1..] == InOrder(r);
      if cmp(e) < 0 {
        OrderedInsertPos(l, cmp);
      } else {
        OrderedInsertPos(r, cmp);
        forall j | n < j < |s| ensures s[j] == InOrder(r)[j - n - 1] {}
      }
  }
}
