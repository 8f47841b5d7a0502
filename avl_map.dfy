/**
 * AvlTree: a search tree whose nodes cache their height and that rebalances with
 * single and double rotations after every insertion and removal, so that the heights
 * of two sibling subtrees never differ by more than ALLOWED_IMBALANCE.
 *
 * A tree is modelled as a value; `Plain` forgets the cached heights, and the search-tree
 * vocabulary (keys, map, in-order listing, the top-n scan) is the one of UnbalancedMap.
 */
module AvlMap {
  import opened Common
  import opened TopFrequent
  import U = UnbalancedMap

  /** How far the heights of two sibling subtrees may differ. */
  const ALLOWED_IMBALANCE := 1

  /** An AvlNode: key, value, children and the cached height (a leaf has height 0). */
  datatype Tree = Nil | Node(left: Tree, key: int, value: int, right: Tree, height: int)

  /** height(t): the cached height, -1 for an empty subtree. */
  function Height(t: Tree): int
  {
    if t.Nil? then -1 else t.height
  }

  /** The same tree without its cached heights. */
  function Plain(t: Tree): (p: U.Tree)
    ensures p.Nil? <==> t.Nil?
  {
    if t.Nil? then U.Nil else U.Node(Plain(t.left), t.key, t.value, Plain(t.right))
  }

  function Keys(t: Tree): set<int> { U.Keys(Plain(t)) }

  function Map(t: Tree): map<int, int> { U.ToMap(Plain(t)) }

  function Entries(t: Tree): seq<Entry> { U.InOrder(Plain(t)) }

  ghost predicate Ordered(t: Tree) { U.Ordered(Plain(t)) }

  /**
   * The AVL condition checkBalance looks for: every cached height is one more than the
   * larger height of the children, and sibling heights differ by at most ALLOWED_IMBALANCE.
   */
  ghost predicate Balanced(t: Tree)
  {
    t.Node? ==>
      && Balanced(t.left) && Balanced(t.right)
      && t.height == Max(Height(t.left), Height(t.right)) + 1
      && -ALLOWED_IMBALANCE <= Height(t.left) - Height(t.right) <= ALLOWED_IMBALANCE
  }

  /** The number of edges on the longest path from the root down to a leaf. */
  function Depth(t: Tree): int
  {
    if t.Nil? then -1 else Max(Depth(t.left), Depth(t.right)) + 1
  }

  function Size(t: Tree): nat
  {
    if t.Nil? then 0 else Size(t.left) + 1 + Size(t.right)
  }

  /** The smallest number of nodes a balanced tree of height h can have. */
  function Sparsest(h: int): nat
    decreases h
  {
    if h < 0 then 0 else if h == 0 then 1 else Sparsest(h - 1) + Sparsest(h - 2) + 1
  }

  lemma {:induction false} HeightFloor(t: Tree)
    requires Balanced(t)
    ensures Height(t) >= -1
    ensures t.Node? ==> Height(t) >= 0
  {
    if t.Node? {
      HeightFloor(t.left);
      HeightFloor(t.right);
    }
  }

  /** In a balanced tree the cached heights are the true heights. */
  lemma {:induction false} CachedHeightIsDepth(t: Tree)
    requires Balanced(t)
    ensures Height(t) == Depth(t)
  {
    if t.Node? {
      CachedHeightIsDepth(t.left);
      CachedHeightIsDepth(t.right);
    }
  }

  lemma {:induction false} SparsestGrows(h: int, k: int)
    requires h <= k
    ensures Sparsest(h) <= Sparsest(k)
    decreases k - h
  {
    if h < k {
      SparsestGrows(h + 1, k);
    }
  }

  /**
   * A balanced tree of height h has at least Sparsest(h) nodes, a number that grows
   * like the Fibonacci numbers: the height is logarithmic in the size.
   */
  lemma {:induction false} BalancedIsDense(t: Tree)
    requires Balanced(t)
    ensures Size(t) >= Sparsest(Height(t))
  {
    if t.Node? {
      BalancedIsDense(t.left);
      BalancedIsDense(t.right);
      var hl, hr := Height(t.left), Height(t.right);
      if hl >= hr {
        SparsestGrows(t.height - 2, hr);
      } else {
        SparsestGrows(t.height - 2, hl);
      }
    }
  }

  lemma {:induction false} SparsestDoubles(h: int)
    requires h >= 1
    ensures Sparsest(h) >= 2 * Sparsest(h - 2) + 1
  {
    SparsestGrows(h - 2, h - 1);
  }

  /** At least 2^(h/2) nodes: doubling every two levels. */
  lemma {:induction false} SparsestExponential(h: int)
    requires h >= 0
    ensures Sparsest(h) >= Pow2(h / 2)
  {
    if h >= 2 {
      SparsestExponential(h - 2);
      SparsestDoubles(h);
      assert (h - 2) / 2 == h / 2 - 1;
    }
  }

  function Pow2(n: nat): nat
  {
    if n == 0 then 1 else 2 * Pow2(n - 1)
  }

  /** The height of a balanced tree is at most about twice the logarithm of its size. */
  lemma {:induction false} HeightLogarithmic(t: Tree)
    requires Balanced(t)
    ensures Height(t) >= 0 ==> Pow2(Height(t) / 2) <= Size(t)
  {
    BalancedIsDense(t);
    if Height(t) >= 0 {
      SparsestExponential(Height(t));
    }
  }

  /**
   * checkBalance as written: the height it returns for a subtree is the subtree's cached
   * height, so comparing a child's cached height with it can never fail; the result is
   * that height and whether no "OOPS" line was printed.
   */
  function CheckBalance(t: Tree): (r: (int, bool))
    ensures r.0 == Height(t)
  {
    if t.Nil? then (-1, true)
    else
      var (hl, ql) := CheckBalance(t.left);
      var (hr, qr) := CheckBalance(t.right);
      var oops := Abs(Height(t.left) - Height(t.right)) > 1 || Height(t.left) != hl || Height(t.right) != hr;
      (Height(t), ql && qr && !oops)
  }

  function Abs(n: int): nat { if n < 0 then -n else n }

  /** Sibling cached heights differ by at most one everywhere (stale heights allowed). */
  ghost predicate SiblingsClose(t: Tree)
  {
    t.Node? ==> SiblingsClose(t.left) && SiblingsClose(t.right) && Abs(Height(t.left) - Height(t.right)) <= 1
  }

  /** All that the check as written decides is whether sibling cached heights are close. */
  lemma {:induction false} CheckBalanceDecides(t: Tree)
    ensures CheckBalance(t).0 == Height(t)
    ensures CheckBalance(t).1 <==> SiblingsClose(t)
  {
    if t.Node? {
      CheckBalanceDecides(t.left);
      CheckBalanceDecides(t.right);
    }
  }

  /** The check as written stays silent on a leaf that claims height 5. */
  lemma {:induction false} CheckBalanceMissesStaleHeight()
    ensures var t := Node(Nil, 1, 1, Nil, 5); CheckBalance(t).1 && !Balanced(t)
  {
  }

  /** checkBalance as intended: the height it returns for a subtree is the one it computed. */
  function CheckBalanceFixed(t: Tree): (r: (int, bool))
    ensures r.0 == Depth(t)
  {
    if t.Nil? then (-1, true)
    else
      var (hl, ql) := CheckBalanceFixed(t.left);
      var (hr, qr) := CheckBalanceFixed(t.right);
      var oops := Abs(Height(t.left) - Height(t.right)) > 1 || Height(t.left) != hl || Height(t.right) != hr;
      (Max(hl, hr) + 1, ql && qr && !oops)
  }

  /**
   * The intended check computes the true height, and it prints nothing with the root's
   * own cached height right exactly when the tree satisfies the AVL condition.
   */
  lemma {:induction false} CheckBalanceFixedDecides(t: Tree)
    ensures CheckBalanceFixed(t).0 == Depth(t)
    ensures CheckBalanceFixed(t).1 && Height(t) == Depth(t) <==> Balanced(t)
  {
    if t.Node? {
      CheckBalanceFixedDecides(t.left);
      CheckBalanceFixedDecides(t.right);
      if Balanced(t) {
        CachedHeightIsDepth(t.left);
        CachedHeightIsDepth(t.right);
      }
    }
  }

  /**
   * rotateWithLeftChild (case 1): the left child k1 becomes the root and k2 its right
   * child; the heights of k2, then k1, are recomputed.
   */
  function RotateWithLeftChild(k2: Tree): (r: Tree)
    requires k2.Node? && k2.left.Node?
    ensures r.Node? && Entries(r) == Entries(k2)
  {
    var k1 := k2.left;
    var k2' := Node(k1.right, k2.key, k2.value, k2.right, Max(Height(k1.right), Height(k2.right)) + 1);
    var r := Node(k1.left, k1.key, k1.value, k2', Max(Height(k1.left), k2'.height) + 1);
    assert Entries(k2') == Entries(k1.right) + [Entry(k2.key, k2.value)] + Entries(k2.right);
    assert Entries(r) == Entries(k1.left) + [Entry(k1.key, k1.value)] + Entries(k2');
    assert Entries(k1) == Entries(k1.left) + [Entry(k1.key, k1.value)] + Entries(k1.right);
    r
  }

  /** rotateWithRightChild (case 4): the mirror image of RotateWithLeftChild. */
  function RotateWithRightChild(k1: Tree): (r: Tree)
    requires k1.Node? && k1.right.Node?
    ensures r.Node? && Entries(r) == Entries(k1)
  {
    var k2 := k1.right;
    var k1' := Node(k1.left, k1.key, k1.value, k2.left, Max(Height(k1.left), Height(k2.left)) + 1);
    var r := Node(k1', k2.key, k2.value, k2.right, Max(Height(k2.right), k1'.height) + 1);
    assert Entries(k1') == Entries(k1.left) + [Entry(k1.key, k1.value)] + Entries(k2.left);
    assert Entries(r) == Entries(k1') + [Entry(k2.key, k2.value)] + Entries(k2.right);
    assert Entries(k2) == Entries(k2.left) + [Entry(k2.key, k2.value)] + Entries(k2.right);
    r
  }

  /** doubleWithLeftChild (case 2): rotate the left child with its right child, then k3 with its new left child. */
  function DoubleWithLeftChild(k3: Tree): (r: Tree)
    requires k3.Node? && k3.left.Node? && k3.left.right.Node?
    ensures r.Node? && Entries(r) == Entries(k3)
  {
    RotateWithLeftChild(k3.(left := RotateWithRightChild(k3.left)))
  }

  /** doubleWithRightChild (case 3): the mirror image of DoubleWithLeftChild. */
  function DoubleWithRightChild(k1: Tree): (r: Tree)
    requires k1.Node? && k1.right.Node? && k1.right.left.Node?
    ensures r.Node? && Entries(r) == Entries(k1)
  {
    RotateWithRightChild(k1.(right := RotateWithLeftChild(k1.right)))
  }

  /** The children balance dereferences exist: it never follows a null reference. */
  predicate Rotatable(t: Tree)
  {
    t.Node? ==>
      && (Height(t.left) - Height(t.right) > ALLOWED_IMBALANCE ==>
            t.left.Node? && (Height(t.left.left) < Height(t.left.right) ==> t.left.right.Node?))
      && (Height(t.left) - Height(t.right) <= ALLOWED_IMBALANCE &&
          Height(t.right) - Height(t.left) > ALLOWED_IMBALANCE ==>
            t.right.Node? && (Height(t.right.right) < Height(t.right.left) ==> t.right.left.Node?))
  }

  /**
   * balance: when one subtree is more than ALLOWED_IMBALANCE taller than the other,
   * rotate once (the outer grandchild is at least as tall as the inner one) or twice;
   * then recompute the root's height.
   */
  function Balance(t: Tree): (r: Tree)
    requires Rotatable(t)
    ensures r.Nil? <==> t.Nil?
    ensures Entries(r) == Entries(t)
  {
    if t.Nil? then t
    else
      var s :=
        if Height(t.left) - Height(t.right) > ALLOWED_IMBALANCE then
          if Height(t.left.left) >= Height(t.left.right) then RotateWithLeftChild(t) else DoubleWithLeftChild(t)
        else if Height(t.right) - Height(t.left) > ALLOWED_IMBALANCE then
          if Height(t.right.right) >= Height(t.right.left) then RotateWithRightChild(t) else DoubleWithRightChild(t)
        else t;
      s.(height := Max(Height(s.left), Height(s.right)) + 1)
  }

  /** A node whose subtrees are balanced is one balance can work on. */
  lemma {:induction false} BalancedChildrenRotatable(t: Tree)
    requires t.Node? && Balanced(t.left) && Balanced(t.right)
    ensures Rotatable(t)
  {
    HeightFloor(t.left);
    HeightFloor(t.right);
    if t.left.Node? {
      HeightFloor(t.left.left);
      HeightFloor(t.left.right);
    }
    if t.right.Node? {
      HeightFloor(t.right.left);
      HeightFloor(t.right.right);
    }
  }

  /** Case 1: a single rotation repairs a left subtree two taller whose outer child is the taller. */
  lemma {:induction false} SingleLeftCase(t: Tree)
    requires t.Node? && t.left.Node? && Balanced(t.left) && Balanced(t.right)
    requires Height(t.left) == Height(t.right) + 2 && Height(t.left.left) >= Height(t.left.right)
    ensures Balanced(RotateWithLeftChild(t))
    ensures Height(t.left) <= Height(RotateWithLeftChild(t)) <= Height(t.left) + 1
  {
  }

  /** Case 2: a double rotation repairs a left subtree two taller whose inner child is the taller. */
  lemma {:induction false} DoubleLeftCase(t: Tree)
    requires t.Node? && t.left.Node? && t.left.right.Node? && Balanced(t.left) && Balanced(t.right)
    requires Height(t.left) == Height(t.right) + 2 && Height(t.left.left) < Height(t.left.right)
    ensures Balanced(DoubleWithLeftChild(t)) && Height(DoubleWithLeftChild(t)) == Height(t.left)
  {
    assert Balanced(t.left.right);
  }

  /** Case 4: the mirror image of case 1. */
  lemma {:induction false} SingleRightCase(t: Tree)
    requires t.Node? && t.right.Node? && Balanced(t.left) && Balanced(t.right)
    requires Height(t.right) == Height(t.left) + 2 && Height(t.right.right) >= Height(t.right.left)
    ensures Balanced(RotateWithRightChild(t))
    ensures Height(t.right) <= Height(RotateWithRightChild(t)) <= Height(t.right) + 1
  {
  }

  /** Case 3: the mirror image of case 2. */
  lemma {:induction false} DoubleRightCase(t: Tree)
    requires t.Node? && t.right.Node? && t.right.left.Node? && Balanced(t.left) && Balanced(t.right)
    requires Height(t.right) == Height(t.left) + 2 && Height(t.right.right) < Height(t.right.left)
    ensures Balanced(DoubleWithRightChild(t)) && Height(DoubleWithRightChild(t)) == Height(t.right)
  {
    assert Balanced(t.right.left);
  }

  /**
   * balance repairs a node whose balanced subtrees differ in height by at most two; the
   * result is no lower than its taller subtree and at most one higher, and exactly one
   * higher when no rotation was needed.
   */
  lemma {:induction false} BalanceRestores(t: Tree)
    requires t.Node? && Balanced(t.left) && Balanced(t.right)
    requires -2 <= Height(t.left) - Height(t.right) <= 2
    ensures Rotatable(t)
    ensures Balanced(Balance(t))
    ensures Max(Height(t.left), Height(t.right)) <= Height(Balance(t)) <= Max(Height(t.left), Height(t.right)) + 1
    ensures -1 <= Height(t.left) - Height(t.right) <= 1 ==> Height(Balance(t)) == Max(Height(t.left), Height(t.right)) + 1
  {
    BalancedChildrenRotatable(t);
    if Height(t.left) - Height(t.right) > ALLOWED_IMBALANCE {
      if Height(t.left.left) >= Height(t.left.right) {
        SingleLeftCase(t);
      } else {
        DoubleLeftCase(t);
      }
    } else if Height(t.right) - Height(t.left) > ALLOWED_IMBALANCE {
      if Height(t.right.right) >= Height(t.right.left) {
        SingleRightCase(t);
      } else {
        DoubleRightCase(t);
      }
    }
  }

  /** On a tree that is already balanced, balance changes nothing. */
  lemma {:induction false} BalanceKeeps(t: Tree)
    requires Balanced(t)
    ensures Rotatable(t) && Balance(t) == t
  {
  }

  /** insert: descend by key, overwrite the value of an equal key, and rebalance on the way back. */
  function Insert(x: int, y: int, t: Tree): (r: Tree)
    requires Balanced(t)
    ensures Balanced(r) && Height(t) <= Height(r) <= Height(t) + 1
  {
    if t.Nil? then Node(Nil, x, y, Nil, 0)
    else if x < t.key then
      var s := t.(left := Insert(x, y, t.left));
      BalanceRestores(s);
      Balance(s)
    else if x > t.key then
      var s := t.(right := Insert(x, y, t.right));
      BalanceRestores(s);
      Balance(s)
    else
      var s := t.(value := y);
      BalanceRestores(s);
      Balance(s)
  }

  /** insert lists what the plain search-tree insertion lists: the heights and rotations are invisible. */
  lemma {:induction false} InsertListing(x: int, y: int, t: Tree)
    requires Balanced(t)
    ensures Entries(Insert(x, y, t)) == U.InOrder(U.Insert(x, y, Plain(t)))
  {
    if t.Node? {
      if x < t.key {
        InsertListing(x, y, t.left);
      } else if x > t.key {
        InsertListing(x, y, t.right);
      }
    }
  }

  /** put(x, y) maps x to y and keeps every other mapping, in a balanced search tree. */
  lemma {:induction false} InsertUpdates(x: int, y: int, t: Tree)
    requires Balanced(t) && Ordered(t)
    ensures Ordered(Insert(x, y, t)) && Map(Insert(x, y, t)) == Map(t)[x := y]
  {
    InsertListing(x, y, t);
    U.InsertUpdates(x, y, Plain(t));
    U.SameListing(U.Insert(x, y, Plain(t)), Plain(Insert(x, y, t)));
  }

  /** findMin: follow left children down to the node holding the smallest key. */
  method FindMin(t: Tree) returns (r: Tree)
    ensures t.Nil? ==> r.Nil?
    ensures t.Node? ==> r.Node? && Entry(r.key, r.value) == U.FindMin(Plain(t))
  {
    r := t;
    if r.Nil? {
      return;
    }
    while r.left.Node?
      invariant r.Node? && U.FindMin(Plain(r)) == U.FindMin(Plain(t))
      decreases r
    {
      r := r.left;
    }
  }

  /** Reassembling a node after removing x from its left subtree. */
  lemma {:induction false} RemovedLeft(t: U.Tree, l: U.Tree, x: int)
    requires t.Node? && U.Ordered(t) && x < t.key
    requires U.Ordered(l) && U.ToMap(l) == U.ToMap(t.left) - {x}
    ensures U.Ordered(U.Node(l, t.key, t.value, t.right))
    ensures U.ToMap(U.Node(l, t.key, t.value, t.right)) == U.ToMap(t) - {x}
  {
    U.NodeMap(t);
    U.MapRemoveLeft(U.ToMap(t.left), U.ToMap(t.right), t.key, t.value, x);
  }

  /** Reassembling a node after removing x from its right subtree. */
  lemma {:induction false} RemovedRight(t: U.Tree, r: U.Tree, x: int)
    requires t.Node? && U.Ordered(t) && t.key < x
    requires U.Ordered(r) && U.ToMap(r) == U.ToMap(t.right) - {x}
    ensures U.Ordered(U.Node(t.left, t.key, t.value, r))
    ensures U.ToMap(U.Node(t.left, t.key, t.value, r)) == U.ToMap(t) - {x}
  {
    U.NodeMap(t);
    U.MapRemoveRight(U.ToMap(t.left), U.ToMap(t.right), t.key, t.value, x);
  }

  /** Two children: the right subtree's smallest key is above the rest of the new node's keys. */
  lemma {:induction false} RemovedRootOrdered(t: U.Tree, r: U.Tree)
    requires t.Node? && t.right.Node? && U.Ordered(t)
    requires U.Ordered(r) && U.Keys(r) == U.Keys(t.right) - {U.FindMin(t.right).key}
    ensures var m := U.FindMin(t.right); U.Ordered(U.Node(t.left, m.key, m.value, r))
  {
    U.FindMinLeast(t.right);
    assert t.key < U.FindMin(t.right).key;
  }

  /** Two children: the root takes the right subtree's smallest entry, which is then removed from there. */
  lemma {:induction false} RemovedRoot(t: U.Tree, r: U.Tree)
    requires t.Node? && t.right.Node? && U.Ordered(t)
    requires U.Ordered(r) && U.ToMap(r) == U.ToMap(t.right) - {U.FindMin(t.right).key}
    ensures var m := U.FindMin(t.right);
      U.Ordered(U.Node(t.left, m.key, m.value, r)) && U.ToMap(U.Node(t.left, m.key, m.value, r)) == U.ToMap(t) - {t.key}
  {
    var m := U.FindMin(t.right);
    assert U.Keys(r) == U.Keys(t.right) - {m.key};
    RemovedRootOrdered(t, r);
    U.NodeMap(t);
    U.FindMinLeast(t.right);
    U.MapReplaceRoot(U.ToMap(t.left), U.ToMap(t.right), t.key, t.value, m.key, m.value);
  }

  /** At most one child: the child takes the node's place. */
  lemma {:induction false} RemovedChild(t: U.Tree)
    requires t.Node? && !(t.left.Node? && t.right.Node?) && U.Ordered(t)
    ensures var c := if t.left.Node? then t.left else t.right;
      U.Ordered(c) && U.ToMap(c) == U.ToMap(t) - {t.key}
  {
    U.RemoveOneChild(t);
  }

  /** remove went left: rebalancing the node over the new left subtree completes the removal. */
  lemma {:induction false} RemovedLeftCase(x: int, t: Tree, l: Tree)
    requires t.Node? && Balanced(t) && x < t.key
    requires Balanced(l) && Height(t.left) - 1 <= Height(l) <= Height(t.left)
    requires x !in Keys(t.left) ==> l == t.left
    requires Ordered(t.left) ==> Ordered(l) && Map(l) == Map(t.left) - {x}
    ensures Rotatable(t.(left := l))
    ensures var r := Balance(t.(left := l));
      && Balanced(r) && Height(t) - 1 <= Height(r) <= Height(t)
      && (x !in Keys(t) ==> r == t)
      && (Ordered(t) ==> Ordered(r) && Map(r) == Map(t) - {x})
  {
    var s := t.(left := l);
    BalanceRestores(s);
    if Ordered(t) {
      RemovedLeft(Plain(t), Plain(l), x);
      U.SameListing(Plain(s), Plain(Balance(s)));
    }
    if x !in Keys(t) {
      BalanceKeeps(t);
    }
  }

  /** remove went right: rebalancing the node over the new right subtree completes the removal. */
  lemma {:induction false} RemovedRightCase(x: int, t: Tree, rr: Tree)
    requires t.Node? && Balanced(t) && t.key < x
    requires Balanced(rr) && Height(t.right) - 1 <= Height(rr) <= Height(t.right)
    requires x !in Keys(t.right) ==> rr == t.right
    requires Ordered(t.right) ==> Ordered(rr) && Map(rr) == Map(t.right) - {x}
    ensures Rotatable(t.(right := rr))
    ensures var r := Balance(t.(right := rr));
      && Balanced(r) && Height(t) - 1 <= Height(r) <= Height(t)
      && (x !in Keys(t) ==> r == t)
      && (Ordered(t) ==> Ordered(r) && Map(r) == Map(t) - {x})
  {
    var s := t.(right := rr);
    BalanceRestores(s);
    if Ordered(t) {
      RemovedRight(Plain(t), Plain(rr), x);
      U.SameListing(Plain(s), Plain(Balance(s)));
    }
    if x !in Keys(t) {
      BalanceKeeps(t);
    }
  }

  /** remove found x at a node with two children whose right subtree gave up its smallest entry m. */
  lemma {:induction false} RemovedRootCase(t: Tree, m: Entry, rr: Tree)
    requires t.Node? && t.left.Node? && t.right.Node? && Balanced(t)
    requires m == U.FindMin(Plain(t.right))
    requires Balanced(rr) && Height(t.right) - 1 <= Height(rr) <= Height(t.right)
    requires Ordered(t.right) ==> Ordered(rr) && Map(rr) == Map(t.right) - {m.key}
    ensures Rotatable(Node(t.left, m.key, m.value, rr, t.height))
    ensures var r := Balance(Node(t.left, m.key, m.value, rr, t.height));
      && Balanced(r) && Height(t) - 1 <= Height(r) <= Height(t)
      && (Ordered(t) ==> Ordered(r) && Map(r) == Map(t) - {t.key})
  {
    var s := Node(t.left, m.key, m.value, rr, t.height);
    BalanceRestores(s);
    if Ordered(t) {
      RemovedRoot(Plain(t), Plain(rr));
      U.SameListing(Plain(s), Plain(Balance(s)));
    }
  }

  /** remove found x at a node with at most one child: the child, already balanced, replaces it. */
  lemma {:induction false} RemovedChildCase(t: Tree)
    requires t.Node? && !(t.left.Node? && t.right.Node?) && Balanced(t)
    ensures var c := if t.left.Node? then t.left else t.right;
      && Rotatable(c) && Balance(c) == c
      && Balanced(c) && Height(c) == Height(t) - 1
      && (Ordered(t) ==> Ordered(c) && Map(c) == Map(t) - {t.key})
  {
    var c := if t.left.Node? then t.left else t.right;
    HeightFloor(t.left);
    HeightFloor(t.right);
    BalanceKeeps(c);
    if Ordered(t) {
      RemovedChild(Plain(t));
    }
  }

  /**
   * remove(x, t): an absent key leaves the tree as it is; a node with two children takes
   * the smallest entry of its right subtree and that key is removed from the right
   * subtree; a node with at most one child is replaced by it; each level is rebalanced
   * on the way back.
   */
  method RemoveFrom(x: int, t: Tree) returns (r: Tree)
    requires Balanced(t)
    ensures Balanced(r) && Height(t) - 1 <= Height(r) <= Height(t)
    ensures x !in Keys(t) ==> r == t
    ensures Ordered(t) ==> Ordered(r) && Map(r) == Map(t) - {x}
    decreases t
  {
    if t.Nil? {
      return t;
    }
    if x < t.key {
      var l := RemoveFrom(x, t.left);
      RemovedLeftCase(x, t, l);
      r := Balance(t.(left := l));
    } else if x > t.key {
      var rr := RemoveFrom(x, t.right);
      RemovedRightCase(x, t, rr);
      r := Balance(t.(right := rr));
    } else if t.left.Node? && t.right.Node? {
      var m := FindMin(t.right);
      var rr := RemoveFrom(m.key, t.right);
      RemovedRootCase(t, Entry(m.key, m.value), rr);
      r := Balance(Node(t.left, m.key, m.value, rr, t.height));
    } else {
      RemovedChildCase(t);
      r := Balance(if t.left.Node? then t.left else t.right);
    }
  }

  /** The container object: a root that put and remove replace. */
  class AvlTree {
    var root: Tree

    ghost predicate Valid()
      reads this
    {
      Ordered(root) && Balanced(root)
    }

    constructor ()
      ensures Valid() && root == Nil
    {
      root := Nil;
    }

    method IsEmpty() returns (b: bool)
      ensures b <==> Map(root) == map[]
    {
      b := root.Nil?;
      assert root.Node? ==> root.key in Map(root);
    }

    method Put(x: int, y: int)
      requires Valid()
      modifies this
      ensures Valid() && Map(root) == old(Map(root))[x := y]
    {
      InsertUpdates(x, y, root);
      root := Insert(x, y, root);
    }

    method Get(x: int) returns (r: Option<int>)
      requires Valid()
      ensures r == if x in Map(root) then Some(Map(root)[x]) else None
    {
      r := U.Lookup(x, Plain(root));
      U.LookupFinds(x, Plain(root));
    }

    /** remove(x): an absent key is no error and changes nothing. */
    method Remove(x: int)
      requires Valid()
      modifies this
      ensures Valid() && Map(root) == old(Map(root)) - {x}
      ensures x !in old(Map(root)) ==> root == old(root)
    {
      root := RemoveFrom(x, root);
    }

    /** toString: the entries in ascending key order; an empty tree is a NoSuchElementException. */
    method ToString() returns (r: Result<seq<Entry>>)
      requires Valid()
      ensures Map(root) == map[] <==> r == Failure(NoSuchElement)
      ensures r.Success? ==> StrictlyAscending(r.value) && |r.value| == |Map(root)|
      ensures r.Success? ==> forall e :: e in r.value <==> e.key in Map(root) && Map(root)[e.key] == e.value
    {
      assert root.Node? ==> root.key in Map(root);
      if root.Nil? {
        return Failure(NoSuchElement);
      }
      U.InOrderAscending(Plain(root));
      U.InOrderMembers(Plain(root));
      U.InOrderSize(Plain(root));
      return Success(Entries(root));
    }

    /** PrintMostFrequent(n): the scan of the unbalanced tree, over this tree's nodes. */
    method PrintMostFrequent(n: int) returns (r: Result<seq<Entry>>)
      ensures root.Nil? ==> r == Failure(NoSuchElement)
      ensures root.Node? && n < 0 ==> r == Failure(NegativeArraySize)
      ensures root.Node? && n == 0 ==> r == Failure(IndexOutOfBounds)
      ensures root.Node? && n >= 1 ==> (r.Success? &&
        var m := U.FindMinFrequency(Entry(root.key, root.value), Plain(root));
        TopOf(r.value, n, multiset{m} + multiset(Entries(root))))
    {
      if root.Nil? {
        return Failure(NoSuchElement);
      }
      r := U.MostFrequent(Plain(root), n);
    }
  }
}
