/**
 * RedBlackTree: Weiss's top-down red-black tree. Insertion walks down from the root,
 * flips the colours of every node with two red children on the way, and repairs a
 * red node under a red parent with a single or double rotation at once, so no
 * second pass up the tree is needed. Removal is not supported.
 *
 * A tree is modelled as a value. The Java code keeps a header node above the root
 * (compare against it always answers 1, so the root is header.right) and a black
 * sentinel nullNode for every empty subtree; here the empty subtree is `Nil`, which
 * counts as black, and the header is the top of the path the insertion walks.
 */
module RedBlackMap {
  import opened Common
  import opened TopFrequent
  import U = UnbalancedMap

  /** The colour field: RED is 0 and BLACK is 1 in the Java code. */
  datatype Color = Red | Black

  /** A RedBlackNode: key, value, children and colour. */
  datatype Tree = Nil | Node(left: Tree, key: int, value: int, right: Tree, color: Color)

  /** The same tree without its colours. */
  function Plain(t: Tree): (p: U.Tree)
    ensures p.Nil? <==> t.Nil?
  {
    if t.Nil? then U.Nil else U.Node(Plain(t.left), t.key, t.value, Plain(t.right))
  }

  function Keys(t: Tree): set<int> { U.Keys(Plain(t)) }

  function Map(t: Tree): map<int, int> { U.ToMap(Plain(t)) }

  function Entries(t: Tree): seq<Entry> { U.InOrder(Plain(t)) }

  ghost predicate Ordered(t: Tree) { U.Ordered(Plain(t)) }

  /** nullNode is black, so only a real node can be red. */
  predicate IsRed(t: Tree) { t.Node? && t.color == Red }

  /** The check of the insertion loop: both children red. */
  predicate TwoRed(t: Tree) { t.Node? && IsRed(t.left) && IsRed(t.right) }

  // ---------------------------------------------------------------------------
  // The red-black invariants
  // ---------------------------------------------------------------------------

  /** Black nodes on the way down the left spine; on a balanced tree, on every path. */
  function BlackHeight(t: Tree): nat
  {
    if t.Nil? then 0 else BlackHeight(t.left) + (if t.color == Black then 1 else 0)
  }

  /** Every path from a node down to an empty subtree meets the same number of black nodes. */
  ghost predicate BlackBalanced(t: Tree)
  {
    t.Node? ==>
      && BlackBalanced(t.left) && BlackBalanced(t.right)
      && BlackHeight(t.left) == BlackHeight(t.right)
  }

  /** No red node has a red child. */
  ghost predicate NoRedRed(t: Tree)
  {
    t.Node? ==>
      && NoRedRed(t.left) && NoRedRed(t.right)
      && (t.color == Red ==> !IsRed(t.left) && !IsRed(t.right))
  }

  /** A red-black tree: balanced black heights, no red-red pair, and a black root. */
  ghost predicate RedBlack(t: Tree)
  {
    BlackBalanced(t) && NoRedRed(t) && !IsRed(t)
  }

  function Size(t: Tree): nat
  {
    if t.Nil? then 0 else Size(t.left) + 1 + Size(t.right)
  }

  /** The number of nodes on the longest path down from the root. */
  function Height(t: Tree): nat
  {
    if t.Nil? then 0 else Max(Height(t.left), Height(t.right)) + 1
  }

  function Pow2(n: nat): nat
  {
    if n == 0 then 1 else 2 * Pow2(n - 1)
  }

  lemma {:induction false} Pow2Grows(a: nat, b: nat)
    requires a <= b
    ensures Pow2(a) <= Pow2(b)
    decreases b
  {
    if a < b {
      Pow2Grows(a, b - 1);
    }
  }

  /** A tree whose paths all meet h black nodes holds at least 2^h - 1 nodes. */
  lemma {:induction false} BlackHeightSize(t: Tree)
    requires BlackBalanced(t)
    ensures Pow2(BlackHeight(t)) <= Size(t) + 1
  {
    if t.Node? {
      BlackHeightSize(t.left);
      BlackHeightSize(t.right);
    }
  }

  /** Without red-red pairs a path has at most one red node per black one (plus a red root). */
  lemma {:induction false} HeightBlackHeight(t: Tree)
    requires NoRedRed(t) && BlackBalanced(t)
    ensures Height(t) <= 2 * BlackHeight(t) + (if IsRed(t) then 1 else 0)
  {
    if t.Node? {
      HeightBlackHeight(t.left);
      HeightBlackHeight(t.right);
    }
  }

  /** The point of the invariants: a red-black tree is at most about twice as high as log2 of its size. */
  lemma {:induction false} RedBlackLogarithmic(t: Tree)
    requires RedBlack(t)
    ensures Pow2(Height(t) / 2) <= Size(t) + 1
  {
    HeightBlackHeightBalanced(t);
    BlackHeightSize(t);
    Pow2Grows(Height(t) / 2, BlackHeight(t));
  }

  lemma {:induction false} HeightBlackHeightBalanced(t: Tree)
    requires RedBlack(t)
    ensures Height(t) <= 2 * BlackHeight(t)
  {
    if t.Node? {
      HeightBlackHeight(t.left);
      HeightBlackHeight(t.right);
    }
  }

  // ---------------------------------------------------------------------------
  // Rotations and the colour flip
  // ---------------------------------------------------------------------------

  /** rotateWithLeftChild(k2): the left child k1 moves up; colours stay with their nodes. */
  function RotateWithLeftChild(k2: Tree): (r: Tree)
    requires k2.Node? && k2.left.Node?
    ensures r.Node? && Entries(r) == Entries(k2)
  {
    var k1 := k2.left;
    var k2' := k2.(left := k1.right);
    assert Entries(k2') == Entries(k1.right) + [Entry(k2.key, k2.value)] + Entries(k2.right);
    assert Entries(k1) == Entries(k1.left) + [Entry(k1.key, k1.value)] + Entries(k1.right);
    k1.(right := k2')
  }

  /** rotateWithRightChild(k1): the right child k2 moves up. */
  function RotateWithRightChild(k1: Tree): (r: Tree)
    requires k1.Node? && k1.right.Node?
    ensures r.Node? && Entries(r) == Entries(k1)
  {
    var k2 := k1.right;
    var k1' := k1.(right := k2.left);
    assert Entries(k1') == Entries(k1.left) + [Entry(k1.key, k1.value)] + Entries(k2.left);
    assert Entries(k2) == Entries(k2.left) + [Entry(k2.key, k2.value)] + Entries(k2.right);
    k2.(left := k1')
  }

  /** The child of t on the side of x: where the search for x goes next. */
  function Next(x: int, t: Tree): Tree
    requires t.Node?
  {
    if x < t.key then t.left else t.right
  }

  /**
   * The rotation rotate picks for a subtree t: with the left child when x is below
   * t's key, with the right child otherwise.
   */
  function RotateToward(x: int, t: Tree): (r: Tree)
    requires t.Node? && Next(x, t).Node?
    ensures r.Node? && Entries(r) == Entries(t)
  {
    if x < t.key then RotateWithLeftChild(t) else RotateWithRightChild(t)
  }

  function Blacken(t: Tree): (r: Tree)
    ensures Entries(r) == Entries(t) && (r.Nil? <==> t.Nil?) && !IsRed(r)
  {
    if t.Nil? then Nil else t.(color := Black)
  }

  /** The colour flip of handleReorient: the node turns red, its children black. */
  function Flip(t: Tree): (r: Tree)
    requires t.Node?
    ensures r.Node? && IsRed(r) && !IsRed(r.left) && !IsRed(r.right)
    ensures Entries(r) == Entries(t) && r.key == t.key
  {
    Node(Blacken(t.left), t.key, t.value, Blacken(t.right), Red)
  }

  // ---------------------------------------------------------------------------
  // The path insertion walks down
  // ---------------------------------------------------------------------------

  /**
   * One node passed on the way down: which way the walk went, the node's key, value and
   * colour, and the child the walk did not take. The Java code remembers the last
   * three of these in the fields parent, grand and great; the header sits above all.
   */
  datatype Frame = Frame(toLeft: bool, key: int, value: int, color: Color, sibling: Tree)

  /** The node of frame f with t hung back in the place the walk took. */
  function Fill(f: Frame, t: Tree): (r: Tree)
    ensures r.Node? && r.key == f.key && r.color == f.color
  {
    if f.toLeft then Node(t, f.key, f.value, f.sibling, f.color)
    else Node(f.sibling, f.key, f.value, t, f.color)
  }

  /** The whole tree around t; the path lists the nearest node first. */
  function Plug(path: seq<Frame>, t: Tree): Tree
    decreases |path|
  {
    if path == [] then t else Plug(path[1..], Fill(path[0], t))
  }

  /** The walk followed the search for x: left exactly where x is below the key. */
  ghost predicate Consistent(x: int, path: seq<Frame>)
  {
    forall i :: 0 <= i < |path| ==> path[i].key != x && path[i].toLeft == (x < path[i].key)
  }

  /** The frame left behind when the walk goes from t to the child on the side of x. */
  function Down(x: int, t: Tree): (f: Frame)
    requires t.Node?
    ensures Fill(f, Next(x, t)) == t
  {
    if x < t.key then Frame(true, t.key, t.value, t.color, t.right)
    else Frame(false, t.key, t.value, t.color, t.left)
  }

  /** The entries of the tree around a path that precede the hole... */
  function Before(path: seq<Frame>): seq<Entry>
    decreases |path|
  {
    if path == [] then []
    else Before(path[1..]) + (if path[0].toLeft then [] else Entries(path[0].sibling) + [Entry(path[0].key, path[0].value)])
  }

  /** ... and those that follow it. */
  function After(path: seq<Frame>): seq<Entry>
    decreases |path|
  {
    if path == [] then []
    else (if path[0].toLeft then [Entry(path[0].key, path[0].value)] + Entries(path[0].sibling) else []) + After(path[1..])
  }

  lemma {:induction false} PlugSplit(path: seq<Frame>, t: Tree)
    ensures Entries(Plug(path, t)) == Before(path) + Entries(t) + After(path)
    decreases |path|
  {
    if path != [] {
      var f := path[0];
      PlugSplit(path[1..], Fill(f, t));
      var e := Entry(f.key, f.value);
      if f.toLeft {
        assert Entries(Fill(f, t)) == Entries(t) + [e] + Entries(f.sibling);
      } else {
        assert Entries(Fill(f, t)) == Entries(f.sibling) + [e] + Entries(t);
      }
    }
  }

  /** Recolouring the topmost node of a path changes nothing but that colour. */
  lemma {:induction false} RecolorTop(path: seq<Frame>, c: Color)
    requires path != []
    ensures var p := path[|path| - 1 := path[|path| - 1].(color := c)];
      Before(p) == Before(path) && After(p) == After(path)
    decreases |path|
  {
    var p := path[|path| - 1 := path[|path| - 1].(color := c)];
    if |path| > 1 {
      RecolorTop(path[1..], c);
      assert p[1..] == path[1..][|path| - 2 := path[|path| - 1].(color := c)];
    }
  }

  /** The top of the tree around a path is the path's last node. */
  lemma {:induction false} PlugTop(path: seq<Frame>, t: Tree)
    requires path != []
    ensures Plug(path, t).Node? && Plug(path, t).color == path[|path| - 1].color
    decreases |path|
  {
    if |path| > 1 {
      PlugTop(path[1..], Fill(path[0], t));
    }
  }

  /** The number of steps the search for x takes down from t before it meets x or nullNode. */
  function SearchLength(x: int, t: Tree): nat
  {
    if t.Nil? || x == t.key then 0 else 1 + SearchLength(x, Next(x, t))
  }

  // ---------------------------------------------------------------------------
  // handleReorient
  // ---------------------------------------------------------------------------

  /**
   * compare(item, t): 1 against the header, compareTo against any other node, so the
   * walk always enters the tree at header.right.
   */
  datatype Position = Header | At(key: int)

  function Compare(item: int, t: Position): (r: int)
    ensures t.Header? ==> r == 1
    ensures t.At? ==> (r < 0 <==> item < t.key) && (r == 0 <==> item == t.key)
  {
    if t.Header? then 1 else if item < t.key then -1 else if item == t.key then 0 else 1
  }

  /** The colour of the parent of the current node; the header was built BLACK. */
  function ParentColor(path: seq<Frame>): Color
  {
    if path == [] then Black else path[0].color
  }

  /**
   * The repair below a red parent p whose parent is g: g turns red; when the walk
   * zig-zagged (its direction at g differs from the one at p) p is first rotated with
   * c; then g is rotated toward x and the subtree's new root turns black.
   */
  function Rotated(x: int, c: Tree, p: Frame, g: Frame): (r: Tree)
    requires c.Node? && p.toLeft == (x < p.key) && g.toLeft == (x < g.key)
    ensures r.Node? && r.color == Black
    ensures Entries(r) == Entries(Fill(g, Fill(p, c)))
  {
    var ps := Fill(p, c);
    var ps' := if (Compare(x, At(g.key)) < 0) != (Compare(x, At(p.key)) < 0) then RotateToward(x, ps) else ps;
    var gs := Fill(g.(color := Red), ps');
    assert Entries(gs) == Entries(Fill(g, Fill(p, c)));
    RotateToward(x, gs).(color := Black)
  }

  /** header.right.color = BLACK: the top node of the tree turns black. */
  function BlackenTop(t: Tree, path: seq<Frame>): (r: (Tree, seq<Frame>))
    requires t.Node?
    ensures r.0.Node? && |r.1| == |path|
    ensures forall i :: 0 <= i < |path| ==> r.1[i].toLeft == path[i].toLeft && r.1[i].key == path[i].key
    ensures Entries(Plug(r.1, r.0)) == Entries(Plug(path, t))
    ensures path == [] ==> r.0.color == Black
    ensures path != [] ==> r.0 == t
  {
    PlugSplit(path, t);
    if path == [] then
      (t.(color := Black), [])
    else
      var p := path[|path| - 1 := path[|path| - 1].(color := Black)];
      RecolorTop(path, Black);
      PlugSplit(p, t);
      (t, p)
  }

  /**
   * handleReorient(x) at the current node c below the path: the colour flip; if the
   * parent is red, the rotation at the grandparent, after which the walk continues
   * from the rotated subtree's root; then the root is made black.
   */
  function Reorient(x: int, c: Tree, path: seq<Frame>): (r: (Tree, seq<Frame>))
    requires c.Node? && Consistent(x, path)
    requires ParentColor(path) == Red ==> |path| >= 2
    ensures r.0.Node? && Consistent(x, r.1)
    ensures Entries(Plug(r.1, r.0)) == Entries(Plug(path, c))
    ensures ParentColor(path) == Red ==> r.0.color == Black && SearchLength(x, r.0) <= SearchLength(x, c) + 1
    ensures ParentColor(path) != Red ==> SearchLength(x, r.0) == SearchLength(x, c)
  {
    var f := Flip(c);
    if ParentColor(path) == Red then
      var g := Rotated(x, f, path[0], path[1]);
      RotatedListing(x, c, path);
      RotatedSearch(x, f, path[0], path[1]);
      BlackenTop(g, path[2..])
    else
      PlugSplit(path, f);
      PlugSplit(path, c);
      BlackenTop(f, path)
  }

  /** The rotation replaces the grandparent's subtree by one with the same listing. */
  lemma {:induction false} RotatedListing(x: int, c: Tree, path: seq<Frame>)
    requires c.Node? && Consistent(x, path) && |path| >= 2
    ensures Entries(Plug(path[2..], Rotated(x, Flip(c), path[0], path[1]))) == Entries(Plug(path, c))
  {
    var g := Rotated(x, Flip(c), path[0], path[1]);
    assert Plug(path, c) == Plug(path[2..], Fill(path[1], Fill(path[0], c)));
    PlugSplit(path[2..], g);
    PlugSplit(path[2..], Fill(path[1], Fill(path[0], c)));
    assert Entries(Fill(path[0], Flip(c))) == Entries(Fill(path[0], c));
    assert Entries(Fill(path[1], Fill(path[0], Flip(c)))) == Entries(Fill(path[1], Fill(path[0], c)));
  }

  lemma {:induction false} RotatedSearch(x: int, c: Tree, p: Frame, g: Frame)
    requires c.Node? && p.toLeft == (x < p.key) && g.toLeft == (x < g.key) && x != p.key && x != g.key
    ensures SearchLength(x, Rotated(x, c, p, g)) <= SearchLength(x, c) + 1
  {
  }

  // ---------------------------------------------------------------------------
  // The red-black invariants through insertion
  // ---------------------------------------------------------------------------

  /** The pieces of a red-black arrangement around a path are red-black arrangements too. */
  lemma {:induction false} PlugParts(path: seq<Frame>, t: Tree)
    requires BlackBalanced(Plug(path, t)) && NoRedRed(Plug(path, t))
    ensures BlackBalanced(t) && NoRedRed(t)
    ensures ParentColor(path) == Red ==> !IsRed(t)
    decreases |path|
  {
    if path != [] {
      PlugParts(path[1..], Fill(path[0], t));
    }
  }

  /**
   * Putting into the hole a subtree as balanced as the old one, with the same black
   * height and not red under a red parent, keeps both invariants and the top colour.
   */
  lemma {:induction false} PlugReplace(path: seq<Frame>, a: Tree, b: Tree)
    requires BlackBalanced(Plug(path, a)) && NoRedRed(Plug(path, a))
    requires BlackBalanced(b) && NoRedRed(b) && BlackHeight(b) == BlackHeight(a)
    requires ParentColor(path) == Red ==> !IsRed(b)
    ensures BlackBalanced(Plug(path, b)) && NoRedRed(Plug(path, b))
    ensures path != [] ==> IsRed(Plug(path, b)) == IsRed(Plug(path, a))
    decreases |path|
  {
    if path != [] {
      var f := path[0];
      PlugParts(path[1..], Fill(f, a));
      PlugReplace(path[1..], Fill(f, a), Fill(f, b));
      PlugTop(path, a);
      PlugTop(path, b);
    }
  }

  /** A black node without red children: the children of a node that has just been flipped. */
  predicate Calm(t: Tree)
  {
    t.Node? && t.color == Black && !IsRed(t.left) && !IsRed(t.right)
  }

  /**
   * The state of insert at the head of its loop, at node cur below the path. The tree
   * is red-black. If cur and its sibling are both red, cur's child toward x is calm.
   * If both of cur's children are red (only just after a rotation), the grandchild
   * toward x is calm. If the walk has reached nullNode under a red parent, that
   * parent has a grandparent and a black sibling.
   */
  ghost predicate Head(x: int, cur: Tree, path: seq<Frame>)
  {
    && RedBlack(Plug(path, cur))
    && (path != [] && IsRed(cur) && IsRed(path[0].sibling) ==> Calm(Next(x, cur)))
    && (TwoRed(cur) ==> Next(x, cur).Node? && Calm(Next(x, Next(x, cur))))
    && (cur.Nil? && ParentColor(path) == Red ==> |path| >= 2 && !IsRed(path[1].sibling))
  }

  /**
   * The state just after a step down to c, before the two-red-children check: a red
   * parent with a red sibling has a calm c, and a red c with a red sibling has a calm
   * child toward x.
   */
  ghost predicate Arrived(x: int, c: Tree, path: seq<Frame>)
  {
    && RedBlack(Plug(path, c))
    && path != []
    && (path[0].color == Red && |path| >= 2 && IsRed(path[1].sibling) ==> Calm(c))
    && (IsRed(c) && IsRed(path[0].sibling) ==> Calm(Next(x, c)))
  }

  /** One step down keeps the tree and turns the loop state into the arrival state. */
  lemma {:induction false} DescendArrives(x: int, cur: Tree, path: seq<Frame>)
    requires Head(x, cur, path) && cur.Node?
    ensures Plug([Down(x, cur)] + path, Next(x, cur)) == Plug(path, cur)
    ensures Arrived(x, Next(x, cur), [Down(x, cur)] + path)
  {
    assert ([Down(x, cur)] + path)[1..] == path;
  }

  /** A red parent of a node sits below the root, which is black. */
  lemma {:induction false} RedParentHasGrand(c: Tree, path: seq<Frame>)
    requires !IsRed(Plug(path, c)) && ParentColor(path) == Red
    ensures |path| >= 2
  {
    PlugTop(path, c);
  }

  /** Without two red children there is nothing to repair. */
  lemma {:induction false} ArrivedHead(x: int, c: Tree, path: seq<Frame>)
    requires Arrived(x, c, path) && !TwoRed(c)
    ensures Head(x, c, path)
  {
    if ParentColor(path) == Red {
      RedParentHasGrand(c, path);
    }
  }

  /** The colour flip keeps the black height and the balance of a node with two red children. */
  lemma {:induction false} FlipFacts(c: Tree)
    requires TwoRed(c) && BlackBalanced(c) && NoRedRed(c)
    ensures BlackBalanced(Flip(c)) && NoRedRed(Flip(c)) && BlackHeight(Flip(c)) == BlackHeight(c)
    ensures Calm(Flip(c).left) && Calm(Flip(c).right)
  {
  }

  /**
   * The flip without rotation (under a black parent or at the root): the subtree f
   * replaces a and the top is blackened.
   */
  lemma {:induction false} FlipRepair(a: Tree, f: Tree, path: seq<Frame>)
    requires RedBlack(Plug(path, a)) && ParentColor(path) != Red
    requires f.Node? && BlackBalanced(f) && NoRedRed(f) && BlackHeight(f) == BlackHeight(a)
    ensures var r := BlackenTop(f, path);
      RedBlack(Plug(r.1, r.0)) && (path != [] ==> r == (f, path))
  {
    var r := BlackenTop(f, path);
    if path == [] {
      assert r.0 == f.(color := Black);
    } else {
      PlugReplace(path, a, f);
      PlugTop(path, a);
      assert path[|path| - 1 := path[|path| - 1].(color := Black)] == path;
    }
  }

  // The repair below a red parent, one lemma per shape of the walk. In each, c is the
  // node just turned red, p its red parent, g the black grandparent and g's other child
  // (the uncle) black; the result is a black node over two red ones.

  /** Left, left: a single rotation with the left child of g. */
  lemma {:induction false} RotationLeftLeft(x: int, c: Tree, p: Frame, g: Frame)
    requires c.Node? && c.color == Red && !IsRed(c.left) && !IsRed(c.right) && NoRedRed(c) && BlackBalanced(c)
    requires p.toLeft == (x < p.key) && g.toLeft == (x < g.key) && x != p.key && x != g.key
    requires p.color == Red && !IsRed(p.sibling) && !IsRed(g.sibling)
    requires NoRedRed(p.sibling) && NoRedRed(g.sibling) && BlackBalanced(p.sibling) && BlackBalanced(g.sibling)
    requires BlackHeight(p.sibling) == BlackHeight(c) && BlackHeight(g.sibling) == BlackHeight(c)
    requires p.toLeft && g.toLeft
    ensures var r := Rotated(x, c, p, g);
      && BlackBalanced(r) && NoRedRed(r) && BlackHeight(r) == BlackHeight(c) + 1
      && (Calm(c.left) && Calm(c.right) ==> Next(x, r).Node? && Calm(Next(x, Next(x, r))))
  {
    var r := Rotated(x, c, p, g);
    assert r == Node(c, p.key, p.value, Node(p.sibling, g.key, g.value, g.sibling, Red), Black);
  }

  /** Right, right: a single rotation with the right child of g. */
  lemma {:induction false} RotationRightRight(x: int, c: Tree, p: Frame, g: Frame)
    requires c.Node? && c.color == Red && !IsRed(c.left) && !IsRed(c.right) && NoRedRed(c) && BlackBalanced(c)
    requires p.toLeft == (x < p.key) && g.toLeft == (x < g.key) && x != p.key && x != g.key
    requires p.color == Red && !IsRed(p.sibling) && !IsRed(g.sibling)
    requires NoRedRed(p.sibling) && NoRedRed(g.sibling) && BlackBalanced(p.sibling) && BlackBalanced(g.sibling)
    requires BlackHeight(p.sibling) == BlackHeight(c) && BlackHeight(g.sibling) == BlackHeight(c)
    requires !p.toLeft && !g.toLeft
    ensures var r := Rotated(x, c, p, g);
      && BlackBalanced(r) && NoRedRed(r) && BlackHeight(r) == BlackHeight(c) + 1
      && (Calm(c.left) && Calm(c.right) ==> Next(x, r).Node? && Calm(Next(x, Next(x, r))))
  {
    var r := Rotated(x, c, p, g);
    assert r == Node(Node(g.sibling, g.key, g.value, p.sibling, Red), p.key, p.value, c, Black);
  }

  /** Left at g, right at p: c rises above both. */
  lemma {:induction false} RotationLeftRight(x: int, c: Tree, p: Frame, g: Frame)
    requires c.Node? && c.color == Red && !IsRed(c.left) && !IsRed(c.right) && NoRedRed(c) && BlackBalanced(c)
    requires p.toLeft == (x < p.key) && g.toLeft == (x < g.key) && x != p.key && x != g.key
    requires p.color == Red && !IsRed(p.sibling) && !IsRed(g.sibling)
    requires NoRedRed(p.sibling) && NoRedRed(g.sibling) && BlackBalanced(p.sibling) && BlackBalanced(g.sibling)
    requires BlackHeight(p.sibling) == BlackHeight(c) && BlackHeight(g.sibling) == BlackHeight(c)
    requires !p.toLeft && g.toLeft
    ensures var r := Rotated(x, c, p, g);
      && BlackBalanced(r) && NoRedRed(r) && BlackHeight(r) == BlackHeight(c) + 1
      && (Calm(c.left) && Calm(c.right) ==> Next(x, r).Node? && Calm(Next(x, Next(x, r))))
  {
    var r := Rotated(x, c, p, g);
    assert r == Node(Node(p.sibling, p.key, p.value, c.left, Red), c.key, c.value,
                     Node(c.right, g.key, g.value, g.sibling, Red), Black);
  }

  /** Right at g, left at p: c rises above both. */
  lemma {:induction false} RotationRightLeft(x: int, c: Tree, p: Frame, g: Frame)
    requires c.Node? && c.color == Red && !IsRed(c.left) && !IsRed(c.right) && NoRedRed(c) && BlackBalanced(c)
    requires p.toLeft == (x < p.key) && g.toLeft == (x < g.key) && x != p.key && x != g.key
    requires p.color == Red && !IsRed(p.sibling) && !IsRed(g.sibling)
    requires NoRedRed(p.sibling) && NoRedRed(g.sibling) && BlackBalanced(p.sibling) && BlackBalanced(g.sibling)
    requires BlackHeight(p.sibling) == BlackHeight(c) && BlackHeight(g.sibling) == BlackHeight(c)
    requires p.toLeft && !g.toLeft
    ensures var r := Rotated(x, c, p, g);
      && BlackBalanced(r) && NoRedRed(r) && BlackHeight(r) == BlackHeight(c) + 1
      && (Calm(c.left) && Calm(c.right) ==> Next(x, r).Node? && Calm(Next(x, Next(x, r))))
  {
    var r := Rotated(x, c, p, g);
    assert r == Node(Node(g.sibling, g.key, g.value, c.left, Red), c.key, c.value,
                     Node(c.right, p.key, p.value, p.sibling, Red), Black);
  }

  /** Whatever the shape, the repaired subtree is red-black one black level above c. */
  lemma {:induction false} RotationFixes(x: int, c: Tree, p: Frame, g: Frame)
    requires c.Node? && c.color == Red && !IsRed(c.left) && !IsRed(c.right) && NoRedRed(c) && BlackBalanced(c)
    requires p.toLeft == (x < p.key) && g.toLeft == (x < g.key) && x != p.key && x != g.key
    requires p.color == Red && !IsRed(p.sibling) && !IsRed(g.sibling)
    requires NoRedRed(p.sibling) && NoRedRed(g.sibling) && BlackBalanced(p.sibling) && BlackBalanced(g.sibling)
    requires BlackHeight(p.sibling) == BlackHeight(c) && BlackHeight(g.sibling) == BlackHeight(c)
    ensures var r := Rotated(x, c, p, g);
      && BlackBalanced(r) && NoRedRed(r) && BlackHeight(r) == BlackHeight(c) + 1
      && (Calm(c.left) && Calm(c.right) ==> Next(x, r).Node? && Calm(Next(x, Next(x, r))))
  {
    if p.toLeft && g.toLeft {
      RotationLeftLeft(x, c, p, g);
    } else if !p.toLeft && !g.toLeft {
      RotationRightRight(x, c, p, g);
    } else if !p.toLeft {
      RotationLeftRight(x, c, p, g);
    } else {
      RotationRightLeft(x, c, p, g);
    }
  }

  /**
   * The rotation case of handleReorient in place: the repaired subtree f (the flipped
   * node) takes the place of a, the grandparent's subtree is rebuilt by the rotation,
   * and the tree around it stays red-black.
   */
  lemma {:induction false} RotateRepair(x: int, a: Tree, f: Tree, path: seq<Frame>)
    requires Consistent(x, path) && RedBlack(Plug(path, a)) && ParentColor(path) == Red && |path| >= 2
    requires !IsRed(path[1].sibling)
    requires f.Node? && f.color == Red && !IsRed(f.left) && !IsRed(f.right)
    requires NoRedRed(f) && BlackBalanced(f) && BlackHeight(f) == BlackHeight(a)
    ensures var r := BlackenTop(Rotated(x, f, path[0], path[1]), path[2..]);
      && r == (Rotated(x, f, path[0], path[1]), path[2..])
      && RedBlack(Plug(r.1, r.0))
      && (Calm(f.left) && Calm(f.right) ==> Next(x, r.0).Node? && Calm(Next(x, Next(x, r.0))))
  {
    var p, g, rest := path[0], path[1], path[2..];
    var gs := Fill(g, Fill(p, a));
    assert Plug(path, a) == Plug(rest, gs);
    PlugParts(rest, gs);
    assert g.color == Black;
    assert BlackHeight(p.sibling) == BlackHeight(a);
    RotationFixes(x, f, p, g);
    var R := Rotated(x, f, p, g);
    PlugReplace(rest, gs, R);
    if rest != [] {
      PlugTop(rest, gs);
      assert rest[|rest| - 1 := rest[|rest| - 1].(color := Black)] == rest;
    } else {
      assert R.(color := Black) == R;
    }
  }

  /** handleReorient at a node with two red children turns an arrival into a loop state. */
  lemma {:induction false} ReorientHead(x: int, c: Tree, path: seq<Frame>)
    requires Arrived(x, c, path) && TwoRed(c) && Consistent(x, path)
    ensures ParentColor(path) == Red ==> |path| >= 2
    ensures ParentColor(path) == Red ==> |path| >= 2 && Head(x, Reorient(x, c, path).0, Reorient(x, c, path).1)
    ensures ParentColor(path) != Red ==> Head(x, Reorient(x, c, path).0, Reorient(x, c, path).1)
  {
    PlugParts(path, c);
    FlipFacts(c);
    if ParentColor(path) == Red {
      RedParentHasGrand(c, path);
      RotateRepair(x, c, Flip(c), path);
    } else {
      FlipRepair(c, Flip(c), path);
      PlugReplace(path, c, Flip(c));
    }
  }

  /** The first check, at the root itself (the header's child): the loop state at the root. */
  lemma {:induction false} RootHead(x: int, t: Tree)
    requires RedBlack(t)
    ensures TwoRed(t) ==> Head(x, Reorient(x, t, []).0, Reorient(x, t, []).1)
    ensures !TwoRed(t) ==> Head(x, t, [])
  {
    if TwoRed(t) {
      FlipFacts(t);
      FlipRepair(t, Flip(t), []);
    }
  }

  /** The new node's handleReorient after the walk reached nullNode keeps the tree red-black. */
  lemma {:induction false} ReorientNew(x: int, y: int, path: seq<Frame>)
    requires Head(x, Nil, path) && Consistent(x, path)
    ensures ParentColor(path) == Red ==> |path| >= 2
    ensures var r := Reorient(x, Node(Nil, x, y, Nil, Black), path); RedBlack(Plug(r.1, r.0))
  {
    var n := Node(Nil, x, y, Nil, Black);
    assert Flip(n) == Node(Nil, x, y, Nil, Red);
    if ParentColor(path) == Red {
      RotateRepair(x, Nil, Flip(n), path);
    } else {
      FlipRepair(Nil, Flip(n), path);
    }
  }

  /** Overwriting the value of a found node changes no colour. */
  lemma {:induction false} OverwriteKeeps(cur: Tree, y: int, path: seq<Frame>)
    requires cur.Node? && RedBlack(Plug(path, cur))
    ensures RedBlack(Plug(path, cur.(value := y)))
  {
    PlugParts(path, cur);
    PlugReplace(path, cur, cur.(value := y));
    if path == [] {
      assert cur.(value := y).color == cur.color;
    }
  }

  // ---------------------------------------------------------------------------
  // Order and contents through insertion
  // ---------------------------------------------------------------------------

  /** Every key listed in s is below x. */
  predicate Below(s: seq<Entry>, x: int) { forall e :: e in s ==> e.key < x }

  /** Every key listed in s is above x. */
  predicate Above(s: seq<Entry>, x: int) { forall e :: e in s ==> x < e.key }

  /** In a search tree the walk for x has only smaller keys before its hole and larger ones after. */
  lemma {:induction false} ConsistentBounds(x: int, path: seq<Frame>, t: Tree)
    requires Consistent(x, path) && StrictlyAscending(Before(path) + Entries(t) + After(path))
    ensures Below(Before(path), x) && Above(After(path), x)
    decreases |path|
  {
    if path != [] {
      var f, rest := path[0], path[1..];
      assert Consistent(x, rest) by {
        assert forall i :: 0 <= i < |rest| ==> rest[i] == path[i + 1];
      }
      FrameListing(path, t);
      ConsistentBounds(x, rest, Fill(f, t));
      if f.toLeft {
        LeftFrameBounds(x, path, t);
      } else {
        RightFrameBounds(x, path, t);
      }
    }
  }

  /** The listing around a path, with the first frame filled in. */
  lemma {:induction false} FrameListing(path: seq<Frame>, t: Tree)
    requires path != []
    ensures Before(path) + Entries(t) + After(path) == Before(path[1..]) + Entries(Fill(path[0], t)) + After(path[1..])
  {
    var f, e, rest := path[0], Entry(path[0].key, path[0].value), path[1..];
    if f.toLeft {
      assert Entries(Fill(f, t)) == Entries(t) + [e] + Entries(f.sibling);
      assert Before(path) == Before(rest);
      assert After(path) == [e] + Entries(f.sibling) + After(rest);
      GroupMiddle(Before(rest), Entries(t), [e], Entries(f.sibling), After(rest));
    } else {
      assert Entries(Fill(f, t)) == Entries(f.sibling) + [e] + Entries(t);
      assert Before(path) == Before(rest) + Entries(f.sibling) + [e];
      assert After(path) == After(rest);
      GroupMiddle2(Before(rest), Entries(f.sibling), [e], Entries(t), After(rest));
    }
  }

  lemma {:induction false} GroupMiddle<T>(p: seq<T>, q: seq<T>, r: seq<T>, s: seq<T>, u: seq<T>)
    ensures p + q + (r + s + u) == p + (q + r + s) + u
  {
  }

  lemma {:induction false} GroupMiddle2<T>(p: seq<T>, q: seq<T>, r: seq<T>, s: seq<T>, u: seq<T>)
    ensures (p + q + r) + s + u == p + (q + r + s) + u
  {
  }

  /** A step left at a key above x adds that key and its right subtree after the hole. */
  lemma {:induction false} LeftFrameBounds(x: int, path: seq<Frame>, t: Tree)
    requires path != [] && path[0].toLeft && x < path[0].key
    requires StrictlyAscending(Before(path) + Entries(t) + After(path))
    requires Below(Before(path[1..]), x) && Above(After(path[1..]), x)
    ensures Below(Before(path), x) && Above(After(path), x)
  {
    var f, rest := path[0], path[1..];
    var e := Entry(f.key, f.value);
    var pre, post := Before(rest) + Entries(t), Entries(f.sibling) + After(rest);
    assert Before(path) == Before(rest);
    assert After(path) == [e] + Entries(f.sibling) + After(rest);
    Regroup(Before(rest), Entries(t), [e], Entries(f.sibling), After(rest));
    AboveAfter(Before(path) + Entries(t) + After(path), pre, e, post, x);
  }

  /** A step right at a key below x adds that key and its left subtree before the hole. */
  lemma {:induction false} RightFrameBounds(x: int, path: seq<Frame>, t: Tree)
    requires path != [] && !path[0].toLeft && path[0].key < x
    requires StrictlyAscending(Before(path) + Entries(t) + After(path))
    requires Below(Before(path[1..]), x) && Above(After(path[1..]), x)
    ensures Below(Before(path), x) && Above(After(path), x)
  {
    var f, rest := path[0], path[1..];
    var e := Entry(f.key, f.value);
    var pre, post := Before(rest) + Entries(f.sibling), Entries(t) + After(rest);
    assert After(path) == After(rest);
    assert Before(path) == Before(rest) + Entries(f.sibling) + [e];
    Regroup2(Before(rest), Entries(f.sibling), [e], Entries(t), After(rest));
    BelowBefore(Before(path) + Entries(t) + After(path), pre, e, post, x);
  }

  lemma {:induction false} Regroup<T>(p: seq<T>, q: seq<T>, r: seq<T>, s: seq<T>, u: seq<T>)
    ensures p + q + (r + s + u) == (p + q) + r + (s + u)
  {
  }

  lemma {:induction false} Regroup2<T>(p: seq<T>, q: seq<T>, r: seq<T>, s: seq<T>, u: seq<T>)
    ensures (p + q + r) + s + u == (p + q) + r + (s + u)
  {
  }

  lemma {:induction false} AboveAfter(whole: seq<Entry>, pre: seq<Entry>, e: Entry, post: seq<Entry>, x: int)
    requires whole == pre + [e] + post && StrictlyAscending(whole) && x < e.key
    ensures Above([e] + post, x)
  {
    U.AscendingAround(pre, e, post);
  }

  lemma {:induction false} BelowBefore(whole: seq<Entry>, pre: seq<Entry>, e: Entry, post: seq<Entry>, x: int)
    requires whole == pre + [e] + post && StrictlyAscending(whole) && e.key < x
    ensures Below(pre + [e], x)
  {
    U.AscendingAround(pre, e, post);
  }

  /**
   * Putting the pair (x, y) between the keys below x and those above it, in place of
   * nothing or of the old pair for x, keeps the listing ascending and holds exactly
   * the new pair and the old pairs for the other keys.
   */
  lemma {:induction false} Splice(b: seq<Entry>, mid: seq<Entry>, a: seq<Entry>, x: int, y: int)
    requires Below(b, x) && Above(a, x) && StrictlyAscending(b + mid + a)
    requires mid == [] || (|mid| == 1 && mid[0].key == x)
    ensures StrictlyAscending(b + [Entry(x, y)] + a)
    ensures forall e :: e in b + [Entry(x, y)] + a <==> e == Entry(x, y) || (e in b + mid + a && e.key != x)
  {
    var s0, s := b + mid + a, b + [Entry(x, y)] + a;
    forall i, j | 0 <= i < j < |s|
      ensures s[i].key < s[j].key
    {
      if j < |b| {
        assert s[i] == s0[i] && s[j] == s0[j];
      } else if i > |b| {
        assert s[i] == s0[i - 1 + |mid|] && s[j] == s0[j - 1 + |mid|];
      } else {
        assert i < |b| ==> s[i] in b;
        assert j > |b| ==> s[j] in a;
      }
    }
  }

  lemma {:induction false} EntriesSize(t: Tree)
    ensures |Entries(t)| == Size(t)
  {
    if t.Node? {
      EntriesSize(t.left);
      EntriesSize(t.right);
    }
  }

  /** A listing spliced as above is the listing of the search tree for the updated map. */
  lemma {:induction false} PutListing(t0: Tree, r: Tree, x: int, y: int, b: seq<Entry>, mid: seq<Entry>, a: seq<Entry>)
    requires Ordered(t0) && Entries(t0) == b + mid + a && Entries(r) == b + [Entry(x, y)] + a
    requires Below(b, x) && Above(a, x) && (mid == [] || (|mid| == 1 && mid[0].key == x))
    ensures Ordered(r) && Map(r) == Map(t0)[x := y]
    ensures Size(r) == Size(t0) + (if x in Keys(t0) then 0 else 1)
  {
    U.InOrderAscending(Plain(t0));
    Splice(b, mid, a, x, y);
    U.AscendingOrdered(Plain(r));
    U.InOrderMembers(Plain(t0));
    U.ListedMap(Plain(r), Map(t0)[x := y]);
    U.KeysListed(Plain(t0));
    EntriesSize(t0);
    EntriesSize(r);
    if mid == [] {
      assert x !in KeysOf(b + a);
    } else {
      assert mid[0] in Entries(t0);
    }
  }

  /** The overwrite at the end of a walk that found x. */
  lemma {:induction false} FoundListing(x: int, y: int, t0: Tree, cur: Tree, path: seq<Frame>)
    requires Ordered(t0) && cur.Node? && cur.key == x && Entries(Plug(path, cur)) == Entries(t0)
    ensures var r := Plug(path, cur.(value := y));
      Ordered(r) && Map(r) == Map(t0)[x := y] && Size(r) == Size(t0) + (if x in Keys(t0) then 0 else 1)
  {
    var r := Plug(path, cur.(value := y));
    PlugSplit(path, cur);
    PlugSplit(path, cur.(value := y));
    var b, a := Before(path) + Entries(cur.left), Entries(cur.right) + After(path);
    var old_ := Entry(x, cur.value);
    NodeListing(Before(path), cur, After(path));
    NodeListing(Before(path), cur.(value := y), After(path));
    U.InOrderAscending(Plain(t0));
    U.AscendingAround(b, old_, a);
    PutListing(t0, r, x, y, b, [old_], a);
  }

  lemma {:induction false} NodeListing(b: seq<Entry>, t: Tree, a: seq<Entry>)
    requires t.Node?
    ensures b + Entries(t) + a == (b + Entries(t.left)) + [Entry(t.key, t.value)] + (Entries(t.right) + a)
  {
  }

  /** The new node at the end of a walk that reached nullNode. */
  lemma {:induction false} NewListing(x: int, y: int, t0: Tree, path: seq<Frame>, r: Tree)
    requires Ordered(t0) && Consistent(x, path) && Entries(Plug(path, Nil)) == Entries(t0)
    requires Entries(r) == Entries(Plug(path, Node(Nil, x, y, Nil, Black)))
    ensures Ordered(r) && Map(r) == Map(t0)[x := y] && Size(r) == Size(t0) + (if x in Keys(t0) then 0 else 1)
  {
    PlugSplit(path, Nil);
    PlugSplit(path, Node(Nil, x, y, Nil, Black));
    U.InOrderAscending(Plain(t0));
    ConsistentBounds(x, path, Nil);
    assert Entries(t0) == Before(path) + [] + After(path);
    PutListing(t0, r, x, y, Before(path), [], After(path));
  }

  // ---------------------------------------------------------------------------
  // insert, find, findMinFrequency
  // ---------------------------------------------------------------------------

  /**
   * insert(x, y): walk down from the header toward x, applying handleReorient at every
   * node with two red children; overwrite the value if x is found, otherwise hang a new
   * node where the walk reached nullNode and apply handleReorient to it.
   */
  method Insert(x: int, y: int, t0: Tree) returns (r: Tree)
    requires RedBlack(t0)
    ensures RedBlack(r)
    ensures Ordered(t0) ==> Ordered(r) && Map(r) == Map(t0)[x := y]
    ensures Ordered(t0) ==> Size(r) == Size(t0) + (if x in Keys(t0) then 0 else 1)
  {
    var cur, path := t0, [];
    RootHead(x, t0);
    if TwoRed(cur) {
      var rr := Reorient(x, cur, path);
      cur, path := rr.0, rr.1;
    }
    // The sentinel nullNode carries x as its key, so the walk stops there too.
    while cur.Node? && x != cur.key
      invariant Consistent(x, path)
      invariant Entries(Plug(path, cur)) == Entries(t0)
      invariant Head(x, cur, path)
      decreases SearchLength(x, cur), if IsRed(cur) then 1 else 0
    {
      var c := Next(x, cur);
      DescendArrives(x, cur, path);
      path := [Down(x, cur)] + path;
      cur := c;
      if TwoRed(cur) {
        ReorientHead(x, cur, path);
        var rr := Reorient(x, cur, path);
        cur, path := rr.0, rr.1;
      } else {
        ArrivedHead(x, cur, path);
      }
    }
    if cur.Node? {
      OverwriteKeeps(cur, y, path);
      if Ordered(t0) {
        FoundListing(x, y, t0, cur, path);
      }
      r := Plug(path, cur.(value := y));
    } else {
      ReorientNew(x, y, path);
      var rr := Reorient(x, Node(Nil, x, y, Nil, Black), path);
      r := Plug(rr.1, rr.0);
      if Ordered(t0) {
        NewListing(x, y, t0, path, r);
      }
    }
  }

  /**
   * find(x): from the root go left below a node's key and right above it; the sentinel
   * nullNode holds x as its key, so the walk stops at x or at nullNode.
   */
  method Find(x: int, t: Tree) returns (r: Option<int>)
    ensures r == U.Lookup(x, Plain(t))
    ensures Ordered(t) ==> r == if x in Map(t) then Some(Map(t)[x]) else None
  {
    var cur := t;
    while true
      invariant U.Lookup(x, Plain(cur)) == U.Lookup(x, Plain(t))
      decreases cur
    {
      var k := if cur.Nil? then x else cur.key;
      if x < k {
        cur := cur.left;
      } else if x > k {
        cur := cur.right;
      } else if cur.Node? {
        r := Some(cur.value);
        break;
      } else {
        r := None;
        break;
      }
    }
    if Ordered(t) {
      U.LookupFinds(x, Plain(t));
    }
  }

  /**
   * findMinFrequency(min, root): like the other trees' helper, but a node replaces the
   * current minimum only when its value is strictly smaller.
   */
  function FindMinFrequency(min: Entry, t: Tree): (r: Entry)
    ensures r == min || r in PreOrder(t)
    decreases t
  {
    if t.Nil? then min
    else
      var node := Entry(t.key, t.value);
      var m := if t.value < min.value then FindMinFrequency(node, t.left) else FindMinFrequency(min, t.left);
      if t.value < m.value then FindMinFrequency(node, t.right) else FindMinFrequency(m, t.right)
  }

  /** The entries in pre-order: a node, then its left subtree, then its right subtree. */
  function PreOrder(t: Tree): seq<Entry>
  {
    if t.Nil? then [] else [Entry(t.key, t.value)] + PreOrder(t.left) + PreOrder(t.right)
  }

  lemma {:induction false} PreOrderPermutes(t: Tree)
    ensures multiset(PreOrder(t)) == multiset(Entries(t))
  {
    if t.Node? {
      PreOrderPermutes(t.left);
      PreOrderPermutes(t.right);
    }
  }

  /**
   * The helper computes the first entry of least value in the pre-order listing: the
   * second offer of the node, after its left subtree, never wins, because the minimum
   * so far is already no larger than the node.
   */
  lemma {:induction false} FindMinFrequencyIsFirstMinimum(min: Entry, t: Tree)
    ensures FindMinFrequency(min, t) == FirstMinimum(min, PreOrder(t))
    decreases t
  {
    if t.Node? {
      var node := Entry(t.key, t.value);
      var start := if t.value < min.value then node else min;
      assert start == FirstMinimum(min, [node]);
      FindMinFrequencyIsFirstMinimum(start, t.left);
      var m := FindMinFrequency(start, t.left);
      FirstMinimumIsFirstMin(start, PreOrder(t.left));
      assert ([start] + PreOrder(t.left))[0] == start;
      assert m.value <= node.value;
      FindMinFrequencyIsFirstMinimum(m, t.right);
      FirstMinimumAppend(min, [node], PreOrder(t.left));
      FirstMinimumAppend(min, [node] + PreOrder(t.left), PreOrder(t.right));
    }
  }

  /** findMinFrequency(root, root) is no larger than any value in the tree. */
  lemma {:induction false} FindMinFrequencyLeast(t: Tree)
    requires t.Node?
    ensures forall e :: e in Entries(t) ==> FindMinFrequency(Entry(t.key, t.value), t).value <= e.value
  {
    var root := Entry(t.key, t.value);
    FindMinFrequencyIsFirstMinimum(root, t);
    FirstMinimumIsFirstMin(root, PreOrder(t));
    PreOrderPermutes(t);
    forall e | e in Entries(t)
      ensures FindMinFrequency(root, t).value <= e.value
    {
      assert e in multiset(PreOrder(t));
      var j :| 0 <= j < |PreOrder(t)| && PreOrder(t)[j] == e;
      assert ([root] + PreOrder(t))[j + 1] == e;
    }
  }

  /**
   * PrintMostFrequent(n) on a non-empty tree: seed slot n-1 with findMinFrequency(root,
   * root), then the same scan as the other trees (node, right subtree, left subtree).
   */
  method MostFrequent(t: Tree, n: int) returns (r: Result<seq<Entry>>)
    requires t.Node?
    ensures n < 0 ==> r == Failure(NegativeArraySize)
    ensures n == 0 ==> r == Failure(IndexOutOfBounds)
    ensures n >= 1 ==> (r.Success? &&
      var m := FindMinFrequency(Entry(t.key, t.value), t);
      r.value == Values(PlacedAll(Seed(n, m), U.Visit(Plain(t)))) &&
      TopOf(r.value, n, multiset{m} + multiset(Entries(t))))
  {
    FindMinFrequencyLeast(t);
    r := U.ScanFrom(Plain(t), n, FindMinFrequency(Entry(t.key, t.value), t));
  }

  /** The container object: the root below the header, replaced by every put. */
  class RedBlackTree {
    var root: Tree

    ghost predicate Valid()
      reads this
    {
      Ordered(root) && RedBlack(root)
    }

    /** The header's right child starts as nullNode. */
    constructor ()
      ensures Valid() && root == Nil
    {
      root := Nil;
    }

    method IsEmpty() returns (b: bool)
      ensures b <==> Map(root) == map[]
    {
      b := root.Nil?;
      assert root.Node? ==> root.key in Map(root);
    }

    /** put(x, y): the tree stays a red-black search tree; a new key adds exactly one node. */
    method Put(x: int, y: int)
      requires Valid()
      modifies this
      ensures Valid() && Map(root) == old(Map(root))[x := y]
      ensures Size(root) == old(Size(root)) + (if x in old(Keys(root)) then 0 else 1)
    {
      root := Insert(x, y, root);
    }

    /** get(x): the value stored for x, or null. */
    method Get(x: int) returns (r: Option<int>)
      requires Valid()
      ensures r == if x in Map(root) then Some(Map(root)[x]) else None
    {
      r := Find(x, root);
    }

    /** remove(x): always an UnsupportedOperationException; the tree is untouched. */
    method Remove(x: int) returns (r: Outcome)
      ensures r == Fail(UnsupportedOperation)
    {
      r := Fail(UnsupportedOperation);
    }

    /** toString: the entries in ascending key order; an empty tree is a NoSuchElementException. */
    method ToString() returns (r: Result<seq<Entry>>)
      requires Valid()
      ensures Map(root) == map[] <==> r == Failure(NoSuchElement)
      ensures r.Success? ==> StrictlyAscending(r.value) && |r.value| == |Map(root)|
      ensures r.Success? ==> forall e :: e in r.value <==> e.key in Map(root) && Map(root)[e.key] == e.value
    {
      assert root.Node? ==> root.key in Map(root);
      if root.Nil? {
        return Failure(NoSuchElement);
      }
      U.InOrderAscending(Plain(root));
      U.InOrderMembers(Plain(root));
      U.InOrderSize(Plain(root));
      return Success(Entries(root));
    }

    /** PrintMostFrequent(n): an empty tree is a NoSuchElementException. */
    method PrintMostFrequent(n: int) returns (r: Result<seq<Entry>>)
      ensures root.Nil? ==> r == Failure(NoSuchElement)
      ensures root.Node? && n < 0 ==> r == Failure(NegativeArraySize)
      ensures root.Node? && n == 0 ==> r == Failure(IndexOutOfBounds)
      ensures root.Node? && n >= 1 ==> (r.Success? &&
        var m := FindMinFrequency(Entry(root.key, root.value), root);
        TopOf(r.value, n, multiset{m} + multiset(Entries(root))))
    {
      if root.Nil? {
        return Failure(NoSuchElement);
      }
      r := MostFrequent(root, n);
    }
  }
}
