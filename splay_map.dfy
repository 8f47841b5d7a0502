/**
 * SplayTree: a search tree over BinaryNode (the node type of the unbalanced tree) that
 * splays top-down: every put, get and remove first brings the node on the search path
 * of the key to the root. The sentinel nullNode is the empty tree `Nil`; the trick of
 * giving it the searched key ("guarantee a match") is the `Node?` guard on each
 * look-ahead below.
 */
module SplayMap {
  import opened Common
  import opened TopFrequent
  import opened UnbalancedMap

  /**
   * A node already linked into one of the two side trees splay assembles: its key and
   * value, and the subtree it keeps (its left one in the left tree, its right one in the
   * right tree); the other link is filled in later.
   */
  datatype Part = Part(sub: Tree, key: int, value: int)

  /** The in-order listing of the left tree, its newest (lowest) node first in `ls`. */
  function LeftListing(ls: seq<Part>): seq<Entry>
  {
    if ls == [] then [] else LeftListing(ls[1..]) + InOrder(ls[0].sub) + [Entry(ls[0].key, ls[0].value)]
  }

  /** The in-order listing of the right tree, its newest (lowest) node first in `rs`. */
  function RightListing(rs: seq<Part>): seq<Entry>
  {
    if rs == [] then [] else [Entry(rs[0].key, rs[0].value)] + InOrder(rs[0].sub) + RightListing(rs[1..])
  }

  /** The left tree with `hole` as the right child of its newest node. */
  function AssembleLeft(ls: seq<Part>, hole: Tree): Tree
  {
    if ls == [] then hole else AssembleLeft(ls[1..], Node(ls[0].sub, ls[0].key, ls[0].value, hole))
  }

  /** The right tree with `hole` as the left child of its newest node. */
  function AssembleRight(rs: seq<Part>, hole: Tree): Tree
  {
    if rs == [] then hole else AssembleRight(rs[1..], Node(hole, rs[0].key, rs[0].value, rs[0].sub))
  }

  lemma {:induction false} AssembleLeftListing(ls: seq<Part>, hole: Tree)
    ensures InOrder(AssembleLeft(ls, hole)) == LeftListing(ls) + InOrder(hole)
  {
    if ls != [] {
      var e, n := Entry(ls[0].key, ls[0].value), Node(ls[0].sub, ls[0].key, ls[0].value, hole);
      AssembleLeftListing(ls[1..], n);
      assert InOrder(n) == InOrder(ls[0].sub) + [e] + InOrder(hole);
      assert LeftListing(ls) == LeftListing(ls[1..]) + InOrder(ls[0].sub) + [e];
      Reassociate(LeftListing(ls[1..]), InOrder(ls[0].sub), [e], InOrder(hole));
    }
  }

  lemma {:induction false} AssembleRightListing(rs: seq<Part>, hole: Tree)
    ensures InOrder(AssembleRight(rs, hole)) == InOrder(hole) + RightListing(rs)
  {
    if rs != [] {
      var e, n := Entry(rs[0].key, rs[0].value), Node(hole, rs[0].key, rs[0].value, rs[0].sub);
      AssembleRightListing(rs[1..], n);
      assert InOrder(n) == InOrder(hole) + [e] + InOrder(rs[0].sub);
      assert RightListing(rs) == [e] + InOrder(rs[0].sub) + RightListing(rs[1..]);
      Reassociate(InOrder(hole), [e], InOrder(rs[0].sub), RightListing(rs[1..]));
    }
  }

  lemma {:induction false} Reassociate<T>(p: seq<T>, q: seq<T>, r: seq<T>, s: seq<T>)
    ensures (p + q + r) + s == p + (q + r + s) && p + q + r + s == p + (q + r + s)
  {
  }

  /** rotateWithLeftChild: the left child becomes the root. */
  function RotateWithLeftChild(k2: Tree): (r: Tree)
    requires k2.Node? && k2.left.Node?
    ensures r.Node? && InOrder(r) == InOrder(k2)
  {
    var k1 := k2.left;
    var k2' := Node(k1.right, k2.key, k2.value, k2.right);
    assert InOrder(k1) == InOrder(k1.left) + [Entry(k1.key, k1.value)] + InOrder(k1.right);
    Node(k1.left, k1.key, k1.value, k2')
  }

  /** rotateWithRightChild: the right child becomes the root. */
  function RotateWithRightChild(k1: Tree): (r: Tree)
    requires k1.Node? && k1.right.Node?
    ensures r.Node? && InOrder(r) == InOrder(k1)
  {
    var k2 := k1.right;
    var k1' := Node(k1.left, k1.key, k1.value, k2.left);
    assert InOrder(k2) == InOrder(k2.left) + [Entry(k2.key, k2.value)] + InOrder(k2.right);
    Node(k1', k2.key, k2.value, k2.right)
  }

  /** Every key listed in `s` is below x. */
  predicate Below(s: seq<Entry>, x: int) { forall e :: e in s ==> e.key < x }

  /** Every key listed in `s` is above x. */
  predicate Above(s: seq<Entry>, x: int) { forall e :: e in s ==> x < e.key }

  lemma {:induction false} SubtreesAroundRoot(t: Tree)
    requires t.Node? && Ordered(t)
    ensures Below(InOrder(t.left), t.key) && Above(InOrder(t.right), t.key)
  {
    InOrderKeys(t.left);
    InOrderKeys(t.right);
  }

  /** The keys of a tree whose listing lies below (above) x lie below (above) x. */
  lemma {:induction false} ListedBounds(t: Tree, x: int)
    ensures Below(InOrder(t), x) ==> forall k :: k in Keys(t) ==> k < x
    ensures Above(InOrder(t), x) ==> forall k :: k in Keys(t) ==> x < k
  {
    KeysListed(t);
  }

  /**
   * The state of splay's walk: t is what is left to search, ls and rs the side trees
   * built so far; together they list the original tree, and on a search tree the side
   * trees hold only keys below and above x.
   */
  ghost predicate Walk(x: int, t0: Tree, ls: seq<Part>, t: Tree, rs: seq<Part>)
  {
    && t.Node?
    && LeftListing(ls) + InOrder(t) + RightListing(rs) == InOrder(t0)
    && (Ordered(t0) ==> Ordered(t) && Below(LeftListing(ls), x) && Above(RightListing(rs), x))
  }

  /** The zig-zig rotations keep the walk's state. */
  lemma {:induction false} WalkRotateLeft(x: int, t0: Tree, ls: seq<Part>, t: Tree, rs: seq<Part>)
    requires Walk(x, t0, ls, t, rs) && t.left.Node?
    ensures Walk(x, t0, ls, RotateWithLeftChild(t), rs)
  {
    if Ordered(t0) {
      SameListing(t, RotateWithLeftChild(t));
    }
  }

  lemma {:induction false} WalkRotateRight(x: int, t0: Tree, ls: seq<Part>, t: Tree, rs: seq<Part>)
    requires Walk(x, t0, ls, t, rs) && t.right.Node?
    ensures Walk(x, t0, ls, RotateWithRightChild(t), rs)
  {
    if Ordered(t0) {
      SameListing(t, RotateWithRightChild(t));
    }
  }

  /** Link right: t, above x, joins the right tree keeping its right subtree; the walk goes left. */
  lemma {:induction false} WalkLinkRight(x: int, t0: Tree, ls: seq<Part>, t: Tree, rs: seq<Part>)
    requires Walk(x, t0, ls, t, rs) && t.left.Node? && x < t.key
    ensures Walk(x, t0, ls, t.left, [Part(t.right, t.key, t.value)] + rs)
  {
    var rs' := [Part(t.right, t.key, t.value)] + rs;
    assert rs'[1..] == rs;
    assert RightListing(rs') == [Entry(t.key, t.value)] + InOrder(t.right) + RightListing(rs);
    if Ordered(t0) {
      SubtreesAroundRoot(t);
    }
  }

  /** Link left: t, below x, joins the left tree keeping its left subtree; the walk goes right. */
  lemma {:induction false} WalkLinkLeft(x: int, t0: Tree, ls: seq<Part>, t: Tree, rs: seq<Part>)
    requires Walk(x, t0, ls, t, rs) && t.right.Node? && t.key < x
    ensures Walk(x, t0, [Part(t.left, t.key, t.value)] + ls, t.right, rs)
  {
    var ls' := [Part(t.left, t.key, t.value)] + ls;
    assert ls'[1..] == ls;
    assert LeftListing(ls') == LeftListing(ls) + InOrder(t.left) + [Entry(t.key, t.value)];
    if Ordered(t0) {
      SubtreesAroundRoot(t);
    }
  }

  /**
   * splay(x, t): walk down from the root towards x, rotating at each zig-zig step and
   * linking the nodes passed into a left tree (keys below x) and a right tree (keys above
   * x); the node where the walk stops becomes the root over the two assembled trees.
   * The listing is unchanged, and every key left of the new root is below x and every
   * key right of it above x, so x is at the root whenever it is in the tree.
   */
  method Splay(x: int, t0: Tree) returns (r: Tree)
    ensures InOrder(r) == InOrder(t0)
    ensures r.Node? <==> t0.Node?
    ensures Ordered(t0) ==> Ordered(r) && ToMap(r) == ToMap(t0)
    ensures r.Node? && Ordered(t0) ==>
      (forall k :: k in Keys(r.left) ==> k < x) && (forall k :: k in Keys(r.right) ==> x < k)
  {
    if t0.Nil? {
      return t0;
    }
    var t := t0;
    var ls: seq<Part> := [];
    var rs: seq<Part> := [];
    while true
      invariant Walk(x, t0, ls, t, rs)
      decreases t
    {
      if x < t.key {
        if t.left.Node? && x < t.left.key {
          WalkRotateLeft(x, t0, ls, t, rs);
          t := RotateWithLeftChild(t);
        }
        if t.left.Nil? {
          break;
        }
        WalkLinkRight(x, t0, ls, t, rs);
        rs := [Part(t.right, t.key, t.value)] + rs;
        t := t.left;
      } else if x > t.key {
        if t.right.Node? && x > t.right.key {
          WalkRotateRight(x, t0, ls, t, rs);
          t := RotateWithRightChild(t);
        }
        if t.right.Nil? {
          break;
        }
        WalkLinkLeft(x, t0, ls, t, rs);
        ls := [Part(t.left, t.key, t.value)] + ls;
        t := t.right;
      } else {
        break;
      }
    }
    r := Node(AssembleLeft(ls, t.left), t.key, t.value, AssembleRight(rs, t.right));
    SplayAssembled(x, t0, ls, t, rs);
  }

  /** The tree splay returns lists the side trees around what is left of the walk. */
  lemma {:induction false} AssembledListing(ls: seq<Part>, t: Tree, rs: seq<Part>)
    requires t.Node?
    ensures var r := Node(AssembleLeft(ls, t.left), t.key, t.value, AssembleRight(rs, t.right));
      && InOrder(r.left) == LeftListing(ls) + InOrder(t.left)
      && InOrder(r.right) == InOrder(t.right) + RightListing(rs)
      && InOrder(r) == LeftListing(ls) + InOrder(t) + RightListing(rs)
  {
    var l, rt := AssembleLeft(ls, t.left), AssembleRight(rs, t.right);
    AssembleLeftListing(ls, t.left);
    AssembleRightListing(rs, t.right);
    var ll, tl, e, tr, rl := LeftListing(ls), InOrder(t.left), [Entry(t.key, t.value)], InOrder(t.right), RightListing(rs);
    assert InOrder(Node(l, t.key, t.value, rt)) == (ll + tl) + e + (tr + rl);
    assert InOrder(t) == tl + e + tr;
    assert (ll + tl) + e + (tr + rl) == ll + (tl + e + tr) + rl;
  }

  /** The tree splay returns once the walk has stopped at t. */
  lemma {:induction false} SplayAssembled(x: int, t0: Tree, ls: seq<Part>, t: Tree, rs: seq<Part>)
    requires Walk(x, t0, ls, t, rs)
    requires x < t.key ==> t.left.Nil?
    requires x > t.key ==> t.right.Nil?
    ensures var r := Node(AssembleLeft(ls, t.left), t.key, t.value, AssembleRight(rs, t.right));
      && InOrder(r) == InOrder(t0)
      && (Ordered(t0) ==> Ordered(r) && ToMap(r) == ToMap(t0))
      && (Ordered(t0) ==> (forall k :: k in Keys(r.left) ==> k < x) && (forall k :: k in Keys(r.right) ==> x < k))
  {
    var r := Node(AssembleLeft(ls, t.left), t.key, t.value, AssembleRight(rs, t.right));
    AssembledListing(ls, t, rs);
    if Ordered(t0) {
      SameListing(t0, r);
      SubtreesAroundRoot(t);
      SideBounds(x, LeftListing(ls), InOrder(t.left), t.key, InOrder(t.right), RightListing(rs));
      ListedBounds(r.left, x);
      ListedBounds(r.right, x);
    }
  }

  /** The side trees after the walk: the left one lists below x, the right one above. */
  lemma {:induction false} SideBounds(x: int, ll: seq<Entry>, tl: seq<Entry>, k: int, tr: seq<Entry>, rl: seq<Entry>)
    requires Below(ll, x) && Above(rl, x) && Below(tl, k) && Above(tr, k)
    requires x < k ==> tl == []
    requires x > k ==> tr == []
    ensures Below(ll + tl, x) && Above(tr + rl, x)
  {
  }

  /** After a splay for x on a search tree, x is in the tree exactly when it is at the root. */
  lemma {:induction false} SplayedRoot(x: int, t0: Tree, r: Tree)
    requires Ordered(t0) && r.Node? && ToMap(r) == ToMap(t0)
    requires (forall k :: k in Keys(r.left) ==> k < x) && (forall k :: k in Keys(r.right) ==> x < k)
    ensures x in ToMap(t0) <==> r.key == x
  {
  }

  /** A key smaller than the splayed root goes above it, taking over the root's left subtree. */
  lemma {:induction false} InsertedAbove(x: int, y: int, t: Tree)
    requires t.Node? && Ordered(t) && x < t.key
    requires forall k :: k in Keys(t.left) ==> k < x
    ensures var r := Node(t.left, x, y, t.(left := Nil));
      Ordered(r) && ToMap(r) == ToMap(t)[x := y]
  {
    var r := Node(t.left, x, y, t.(left := Nil));
    NodeMap(t);
    assert map[] + ToMap(t.right) == ToMap(t.right);
    assert ToMap(t.(left := Nil)) == ToMap(t.right)[t.key := t.value];
    assert ToMap(r) == (ToMap(t.left) + ToMap(t.right)[t.key := t.value])[x := y];
    MapSplitRoot(ToMap(t.left), ToMap(t.right), t.key, t.value, x, y);
  }

  /** A key larger than the splayed root goes above it, taking over the root's right subtree. */
  lemma {:induction false} InsertedBelow(x: int, y: int, t: Tree)
    requires t.Node? && Ordered(t) && t.key < x
    requires forall k :: k in Keys(t.right) ==> x < k
    ensures var r := Node(t.(right := Nil), x, y, t.right);
      Ordered(r) && ToMap(r) == ToMap(t)[x := y]
  {
    var r := Node(t.(right := Nil), x, y, t.right);
    NodeMap(t);
    assert ToMap(t.left) + map[] == ToMap(t.left);
    assert ToMap(t.(right := Nil)) == ToMap(t.left)[t.key := t.value];
    assert ToMap(r) == (ToMap(t.left)[t.key := t.value] + ToMap(t.right))[x := y];
    MapSplitRootRight(ToMap(t.left), ToMap(t.right), t.key, t.value, x, y);
  }

  lemma {:induction false} MapSplitRoot(ml: map<int, int>, mr: map<int, int>, k: int, v: int, x: int, y: int)
    requires x != k && x !in ml && x !in mr && k !in ml
    ensures (ml + mr[k := v])[x := y] == (ml + mr)[k := v][x := y]
  {
    var a, b := (ml + mr[k := v])[x := y], (ml + mr)[k := v][x := y];
    assert a.Keys == b.Keys;
  }

  lemma {:induction false} MapSplitRootRight(ml: map<int, int>, mr: map<int, int>, k: int, v: int, x: int, y: int)
    requires x != k && x !in ml && x !in mr && k !in mr
    ensures (ml[k := v] + mr)[x := y] == (ml + mr)[k := v][x := y]
  {
    var a, b := (ml[k := v] + mr)[x := y], (ml + mr)[k := v][x := y];
    assert a.Keys == b.Keys;
  }

  /** The root held x and had no left subtree: its right subtree is what remains. */
  lemma {:induction false} RemovedRootWithoutLeft(t: Tree)
    requires t.Node? && Ordered(t) && t.left.Nil?
    ensures Ordered(t.right) && ToMap(t.right) == ToMap(t) - {t.key}
  {
    NodeMap(t);
    assert ToMap(t) == ToMap(t.right)[t.key := t.value];
  }

  /**
   * The root held x and had a left subtree, and splaying x there returned nt: its largest
   * key is at the top with nothing to its right, so the old right subtree can hang there.
   */
  lemma {:induction false} RemovedSplayedRoot(x: int, t: Tree, nt: Tree)
    requires t.Node? && Ordered(t) && t.key == x && t.left.Node?
    requires nt.Node? && Ordered(nt) && ToMap(nt) == ToMap(t.left)
    requires forall k :: k in Keys(nt.right) ==> x < k
    ensures nt.right.Nil?
    ensures var r := nt.(right := t.right); Ordered(r) && ToMap(r) == ToMap(t) - {x}
  {
    NothingRightOfMax(x, t, nt);
    HangRightOrdered(t, nt);
    HangRightMap(t, nt);
  }

  lemma {:induction false} HangRightOrdered(t: Tree, nt: Tree)
    requires t.Node? && Ordered(t) && nt.Node? && Ordered(nt) && Keys(nt) == Keys(t.left)
    ensures Ordered(nt.(right := t.right))
  {
    assert nt.key in Keys(t.left);
    assert forall k :: k in Keys(t.right) ==> nt.key < k;
  }

  lemma {:induction false} HangRightMap(t: Tree, nt: Tree)
    requires t.Node? && Ordered(t) && nt.Node? && nt.right.Nil? && ToMap(nt) == ToMap(t.left)
    ensures ToMap(nt.(right := t.right)) == ToMap(t) - {t.key}
  {
    var ml, mr := ToMap(nt.left), ToMap(t.right);
    NodeMap(t);
    assert ml + map[] == ml;
    assert ToMap(t.left) == ml[nt.key := nt.value];
    MapJoin(ml, mr, nt.key, nt.value, t.key, t.value);
  }

  /** Every key of the left subtree is below x, so nothing can be right of the splayed root. */
  lemma {:induction false} NothingRightOfMax(x: int, t: Tree, nt: Tree)
    requires t.Node? && Ordered(t) && t.key == x
    requires nt.Node? && ToMap(nt) == ToMap(t.left)
    requires forall k :: k in Keys(nt.right) ==> x < k
    ensures nt.right.Nil?
  {
    assert Keys(nt) == Keys(t.left);
    assert Keys(nt.right) <= Keys(nt);
    assert Keys(nt.right) == {};
  }

  lemma {:induction false} MapJoin(ml: map<int, int>, mr: map<int, int>, mk: int, mv: int, k: int, v: int)
    requires ml.Keys !! mr.Keys && mk !in mr && k != mk && k !in ml && k !in mr
    ensures (ml + mr)[mk := mv] == (ml[mk := mv] + mr)[k := v] - {k}
  {
    var a, b := (ml + mr)[mk := mv], (ml[mk := mv] + mr)[k := v] - {k};
    assert a.Keys == b.Keys;
  }

  /** The container object: a root that every operation, get included, replaces. */
  class SplayTree {
    var root: Tree

    ghost predicate Valid()
      reads this
    {
      Ordered(root)
    }

    constructor ()
      ensures Valid() && root == Nil
    {
      root := Nil;
    }

    method IsEmpty() returns (b: bool)
      ensures b <==> ToMap(root) == map[]
    {
      b := root.Nil?;
      assert root.Node? ==> root.key in ToMap(root);
    }

    /**
     * put(x, y) (insert): splay x to the root, then put the new node above it with the
     * old root as its right (x smaller) or left (x larger) child; an equal key is
     * overwritten. The new or updated entry ends at the root.
     */
    method Put(x: int, y: int)
      requires Valid()
      modifies this
      ensures Valid() && ToMap(root) == old(ToMap(root))[x := y]
      ensures root.Node? && root.key == x && root.value == y
    {
      if root.Nil? {
        root := Node(Nil, x, y, Nil);
        return;
      }
      var t := Splay(x, root);
      if x < t.key {
        InsertedAbove(x, y, t);
        root := Node(t.left, x, y, t.(left := Nil));
      } else if x > t.key {
        InsertedBelow(x, y, t);
        root := Node(t.(right := Nil), x, y, t.right);
      } else {
        NodeMap(t);
        root := t.(value := y);
        assert ToMap(root) == ToMap(t)[x := y];
      }
    }

    /** get(x): splay x to the root and report its value when it is there. */
    method Get(x: int) returns (r: Option<int>)
      requires Valid()
      modifies this
      ensures Valid() && ToMap(root) == old(ToMap(root))
      ensures r == if x in ToMap(root) then Some(ToMap(root)[x]) else None
      ensures r.Some? ==> root.key == x
    {
      if root.Nil? {
        return None;
      }
      ghost var t0 := root;
      root := Splay(x, root);
      SplayedRoot(x, t0, root);
      if root.key == x {
        return Some(root.value);
      }
      return None;
    }

    /**
     * remove(x): splay x to the root; if it is there, splay x in the left subtree, which
     * brings its largest key to the top with an empty right side, and hang the old right
     * subtree there. An absent key is no error.
     */
    method Remove(x: int)
      requires Valid()
      modifies this
      ensures Valid() && ToMap(root) == old(ToMap(root)) - {x}
    {
      ghost var t0 := root;
      var t := Splay(x, root);
      if t.Nil? || t.key != x {
        if t.Node? {
          SplayedRoot(x, t0, t);
        }
        root := t;
        return;
      }
      if t.left.Nil? {
        RemovedRootWithoutLeft(t);
        root := t.right;
      } else {
        var nt := Splay(x, t.left);
        RemovedSplayedRoot(x, t, nt);
        root := nt.(right := t.right);
      }
    }

    /** toString: the entries in ascending key order; an empty tree is a NoSuchElementException. */
    method ToString() returns (r: Result<seq<Entry>>)
      requires Valid()
      ensures ToMap(root) == map[] <==> r == Failure(NoSuchElement)
      ensures r.Success? ==> StrictlyAscending(r.value) && |r.value| == |ToMap(root)|
      ensures r.Success? ==> forall e :: e in r.value <==> e.key in ToMap(root) && ToMap(root)[e.key] == e.value
    {
      assert root.Node? ==> root.key in ToMap(root);
      if root.Nil? {
        return Failure(NoSuchElement);
      }
      InOrderAscending(root);
      InOrderMembers(root);
      InOrderSize(root);
      return Success(InOrder(root));
    }

    /** PrintMostFrequent(n): the scan of the unbalanced tree, over this tree's nodes. */
    method PrintMostFrequent(n: int) returns (r: Result<seq<Entry>>)
      ensures root.Nil? ==> r == Failure(NoSuchElement)
      ensures root.Node? && n < 0 ==> r == Failure(NegativeArraySize)
      ensures root.Node? && n == 0 ==> r == Failure(IndexOutOfBounds)
      ensures root.Node? && n >= 1 ==> (r.Success? &&
        var m := FindMinFrequency(Entry(root.key, root.value), root);
        TopOf(r.value, n, multiset{m} + multiset(InOrder(root))))
    {
      if root.Nil? {
        return Failure(NoSuchElement);
      }
      r := MostFrequent(root, n);
    }
  }
}
