/**
 * BinarySearchTree: an unbalanced binary search tree map. Nodes are ordered by key;
 * put inserts a leaf or overwrites a value, remove replaces a two-child node by the
 * minimum of its right subtree, and PrintMostFrequent reports the n entries with the
 * largest values. The node type is shared with the splay tree.
 */
module UnbalancedMap {
  import opened Common
  import opened TopFrequent

  /** BinaryNode: a key, its value and two subtrees; Nil is a null child. */
  datatype Tree = Nil | Node(left: Tree, key: int, value: int, right: Tree)

  function Keys(t: Tree): set<int>
  {
    if t.Nil? then {} else Keys(t.left) + {t.key} + Keys(t.right)
  }

  /** Search-tree order: every key of a left subtree is smaller, every key of a right subtree larger. */
  ghost predicate Ordered(t: Tree)
  {
    t.Node? ==>
      && Ordered(t.left) && Ordered(t.right)
      && (forall k :: k in Keys(t.left) ==> k < t.key)
      && (forall k :: k in Keys(t.right) ==> t.key < k)
  }

  /** The map a search tree stands for. */
  function ToMap(t: Tree): (m: map<int, int>)
    ensures m.Keys == Keys(t)
  {
    if t.Nil? then map[] else (ToMap(t.left) + ToMap(t.right))[t.key := t.value]
  }

  /** The entries in key order: what toString lists. */
  function InOrder(t: Tree): seq<Entry>
  {
    if t.Nil? then [] else InOrder(t.left) + [Entry(t.key, t.value)] + InOrder(t.right)
  }

  /** The order in which the PrintMostFrequent helper visits the entries: node, right subtree, left subtree. */
  function Visit(t: Tree): seq<Entry>
  {
    if t.Nil? then [] else [Entry(t.key, t.value)] + Visit(t.right) + Visit(t.left)
  }

  /** Every entry listed belongs to the tree. */
  lemma {:induction false} InOrderKeys(t: Tree)
    ensures forall e :: e in InOrder(t) ==> e.key in Keys(t)
  {
    if t.Node? {
      InOrderKeys(t.left);
      InOrderKeys(t.right);
    }
  }

  /** The map of a search-tree node: the two subtrees' maps, which share no key, and the node's own pair. */
  lemma {:induction false} NodeMap(t: Tree)
    requires t.Node? && Ordered(t)
    ensures Keys(t.left) !! Keys(t.right) && t.key !in Keys(t.left) + Keys(t.right)
    ensures forall k :: k in Keys(t.left) ==> ToMap(t)[k] == ToMap(t.left)[k]
    ensures forall k :: k in Keys(t.right) ==> ToMap(t)[k] == ToMap(t.right)[k]
    ensures ToMap(t)[t.key] == t.value
  {
    forall k | k in Keys(t.left) ensures k !in Keys(t.right) {}
  }

  /** The in-order listing of a search tree is strictly ascending. */
  lemma {:induction false} InOrderAscending(t: Tree)
    requires Ordered(t)
    ensures StrictlyAscending(InOrder(t))
  {
    if t.Node? {
      InOrderAscending(t.left);
      InOrderAscending(t.right);
      InOrderKeys(t.left);
      InOrderKeys(t.right);
      var l, r := InOrder(t.left), InOrder(t.right);
      var s := InOrder(t);
      forall i, j | 0 <= i < j < |s|
        ensures s[i].key < s[j].key
      {
        if j < |l| {
          assert s[i] == l[i] && s[j] == l[j];
        } else if i > |l| {
          assert s[i] == r[i - |l| - 1] && s[j] == r[j - |l| - 1];
        } else {
          assert i < |l| ==> s[i] == l[i] && s[i] in l;
          assert j > |l| ==> s[j] == r[j - |l| - 1] && s[j] in r;
        }
      }
    }
  }

  /** The in-order listing of a search tree holds exactly the pairs of its map. */
  lemma {:induction false} InOrderMembers(t: Tree)
    requires Ordered(t)
    ensures forall e :: e in InOrder(t) <==> e.key in ToMap(t) && ToMap(t)[e.key] == e.value
  {
    if t.Node? {
      InOrderMembers(t.left);
      InOrderMembers(t.right);
      NodeMap(t);
      assert InOrder(t) == InOrder(t.left) + [Entry(t.key, t.value)] + InOrder(t.right);
    }
  }

  /** A search tree lists as many entries as its map has keys. */
  lemma {:induction false} InOrderSize(t: Tree)
    requires Ordered(t)
    ensures |InOrder(t)| == |ToMap(t)|
  {
    if t.Node? {
      InOrderSize(t.left);
      InOrderSize(t.right);
      NodeMap(t);
      MapSizeDisjoint(ToMap(t.left), ToMap(t.right));
    }
  }

  /** The keys of a tree are the keys its in-order listing shows. */
  lemma {:induction false} KeysListed(t: Tree)
    ensures Keys(t) == KeysOf(InOrder(t))
  {
    if t.Node? {
      KeysListed(t.left);
      KeysListed(t.right);
      KeysOfAppend(InOrder(t.left), [Entry(t.key, t.value)]);
      KeysOfAppend(InOrder(t.left) + [Entry(t.key, t.value)], InOrder(t.right));
    }
  }

  lemma {:induction false} KeysOfAppend(a: seq<Entry>, b: seq<Entry>)
    ensures KeysOf(a + b) == KeysOf(a) + KeysOf(b)
  {
    if a != [] {
      assert (a + b)[1..] == a[1..] + b;
      KeysOfAppend(a[1..], b);
    } else {
      assert a + b == b;
    }
  }

  /** The parts of an ascending listing around one of its entries. */
  lemma {:induction false} AscendingAround(l: seq<Entry>, m: Entry, r: seq<Entry>)
    requires StrictlyAscending(l + [m] + r)
    ensures StrictlyAscending(l) && StrictlyAscending(r)
    ensures forall e :: e in l ==> e.key < m.key
    ensures forall e :: e in r ==> m.key < e.key
  {
    var s := l + [m] + r;
    assert forall i :: 0 <= i < |l| ==> s[i] == l[i];
    assert forall i :: 0 <= i < |r| ==> s[|l| + 1 + i] == r[i];
    assert s[|l|] == m;
  }

  /** A tree whose in-order listing strictly ascends is a search tree. */
  lemma {:induction false} AscendingOrdered(t: Tree)
    requires StrictlyAscending(InOrder(t))
    ensures Ordered(t)
  {
    if t.Node? {
      AscendingAround(InOrder(t.left), Entry(t.key, t.value), InOrder(t.right));
      AscendingOrdered(t.left);
      AscendingOrdered(t.right);
      KeysListed(t.left);
      KeysListed(t.right);
    }
  }

  /**
   * Rearranging a search tree without changing its in-order listing (a rotation, a
   * splay step) keeps the search order and the map.
   */
  lemma {:induction false} SameListing(a: Tree, b: Tree)
    requires Ordered(a) && InOrder(a) == InOrder(b)
    ensures Ordered(b) && ToMap(b) == ToMap(a)
  {
    InOrderAscending(a);
    AscendingOrdered(b);
    InOrderMembers(a);
    InOrderMembers(b);
    forall k | k in ToMap(a)
      ensures k in ToMap(b) && ToMap(b)[k] == ToMap(a)[k]
    {
      assert Entry(k, ToMap(a)[k]) in InOrder(b);
    }
    forall k | k in ToMap(b)
      ensures k in ToMap(a)
    {
      assert Entry(k, ToMap(b)[k]) in InOrder(a);
    }
  }

  /** A search tree whose listing holds exactly the pairs of m stands for m. */
  lemma {:induction false} ListedMap(t: Tree, m: map<int, int>)
    requires Ordered(t)
    requires forall e :: e in InOrder(t) <==> e.key in m && m[e.key] == e.value
    ensures ToMap(t) == m
  {
    InOrderMembers(t);
    forall k | k in m
      ensures k in ToMap(t) && ToMap(t)[k] == m[k]
    {
      assert Entry(k, m[k]) in InOrder(t);
    }
    forall k | k in ToMap(t)
      ensures k in m
    {
      assert Entry(k, ToMap(t)[k]) in InOrder(t);
    }
  }

  lemma {:induction false} MapSizeDisjoint(a: map<int, int>, b: map<int, int>)
    requires a.Keys !! b.Keys
    ensures |a + b| == |a| + |b|
  {
    assert (a + b).Keys == a.Keys + b.Keys;
  }

  /** The PrintMostFrequent traversal visits every entry exactly once. */
  lemma {:induction false} VisitPermutesInOrder(t: Tree)
    ensures multiset(Visit(t)) == multiset(InOrder(t))
  {
    if t.Node? {
      VisitPermutesInOrder(t.left);
      VisitPermutesInOrder(t.right);
    }
  }

  /** get(x, root): the search compares x with each node's key and goes right or left. */
  function Lookup(x: int, t: Tree): (r: Option<int>)
    ensures r.Some? ==> x in Keys(t)
  {
    if t.Nil? then None
    else if t.key < x then Lookup(x, t.right)
    else if t.key > x then Lookup(x, t.left)
    else Some(t.value)
  }

  /** On a search tree the search finds exactly the map's value. */
  lemma {:induction false} LookupFinds(x: int, t: Tree)
    requires Ordered(t)
    ensures Lookup(x, t) == if x in ToMap(t) then Some(ToMap(t)[x]) else None
  {
    if t.Node? {
      NodeMap(t);
      if t.key < x {
        LookupFinds(x, t.right);
      } else if t.key > x {
        LookupFinds(x, t.left);
      }
    }
  }

  /** insert(x, y, t): a new leaf where the search ends, or the value overwritten when the key is present. */
  function Insert(x: int, y: int, t: Tree): (r: Tree)
    ensures Keys(r) == Keys(t) + {x}
  {
    if t.Nil? then Node(Nil, x, y, Nil)
    else if x < t.key then Node(Insert(x, y, t.left), t.key, t.value, t.right)
    else if x > t.key then Node(t.left, t.key, t.value, Insert(x, y, t.right))
    else Node(t.left, t.key, y, t.right)
  }

  /** Inserting keeps the search-tree order and maps x to y, leaving every other key as it was. */
  lemma {:induction false} InsertUpdates(x: int, y: int, t: Tree)
    requires Ordered(t)
    ensures Ordered(Insert(x, y, t)) && ToMap(Insert(x, y, t)) == ToMap(t)[x := y]
  {
    if t.Node? {
      NodeMap(t);
      if x < t.key {
        InsertUpdates(x, y, t.left);
        MapInsertLeft(ToMap(t.left), ToMap(t.right), t.key, t.value, x, y);
      } else if x > t.key {
        InsertUpdates(x, y, t.right);
        MapInsertRight(ToMap(t.left), ToMap(t.right), t.key, t.value, x, y);
      }
    }
  }

  /** Map algebra of inserting below the left subtree. */
  lemma {:induction false} MapInsertLeft(ml: map<int, int>, mr: map<int, int>, k: int, v: int, x: int, y: int)
    requires x != k && x !in mr
    ensures (ml[x := y] + mr)[k := v] == (ml + mr)[k := v][x := y]
  {
    var a, b := (ml[x := y] + mr)[k := v], (ml + mr)[k := v][x := y];
    assert a.Keys == b.Keys;
  }

  /** Map algebra of inserting below the right subtree. */
  lemma {:induction false} MapInsertRight(ml: map<int, int>, mr: map<int, int>, k: int, v: int, x: int, y: int)
    requires x != k
    ensures (ml + mr[x := y])[k := v] == (ml + mr)[k := v][x := y]
  {
    var a, b := (ml + mr[x := y])[k := v], (ml + mr)[k := v][x := y];
    assert a.Keys == b.Keys;
  }

  /** findMin(t): the leftmost node, which holds the smallest key. */
  function FindMin(t: Tree): (r: Entry)
    requires t.Node?
    ensures r.key in Keys(t)
  {
    if t.left.Nil? then Entry(t.key, t.value) else FindMin(t.left)
  }

  /** The leftmost entry is the first one listed in order. */
  lemma {:induction false} FindMinFirst(t: Tree)
    requires t.Node?
    ensures FindMin(t) == InOrder(t)[0]
  {
    if t.left.Node? {
      FindMinFirst(t.left);
    }
  }

  /** In a search tree the leftmost entry is the pair of the least key. */
  lemma {:induction false} FindMinLeast(t: Tree)
    requires t.Node? && Ordered(t)
    ensures ToMap(t)[FindMin(t).key] == FindMin(t).value
    ensures forall k :: k in Keys(t) ==> FindMin(t).key <= k
  {
    NodeMap(t);
    if t.left.Node? {
      FindMinLeast(t.left);
    }
  }

  /** removeMin(t): unlinks the leftmost node; an empty subtree is an IllegalArgumentException. */
  function RemoveMin(t: Tree): (r: Result<Tree>)
    ensures r.Failure? <==> t.Nil?
    ensures r.Failure? ==> r.error == IllegalArgument
    ensures r.Success? ==> Keys(r.value) <= Keys(t)
  {
    if t.Nil? then Failure(IllegalArgument)
    else if t.left.Node? then Success(Node(RemoveMin(t.left).value, t.key, t.value, t.right))
    else Success(t.right)
  }

  /** removeMin drops the first entry of the in-order listing and keeps the rest in order. */
  lemma {:induction false} RemoveMinInOrder(t: Tree)
    requires t.Node?
    ensures InOrder(RemoveMin(t).value) == InOrder(t)[1..]
  {
    if t.left.Node? {
      RemoveMinInOrder(t.left);
      assert InOrder(t)[1..] == InOrder(t.left)[1..] + [Entry(t.key, t.value)] + InOrder(t.right);
    }
  }

  /** Removing the minimum of a search tree keeps the order and drops exactly the least key. */
  lemma {:induction false} RemoveMinDrops(t: Tree)
    requires t.Node? && Ordered(t)
    ensures Ordered(RemoveMin(t).value) && ToMap(RemoveMin(t).value) == ToMap(t) - {FindMin(t).key}
  {
    NodeMap(t);
    FindMinLeast(t);
    if t.left.Node? {
      RemoveMinDrops(t.left);
      FindMinLeast(t.left);
      MapRemoveLeft(ToMap(t.left), ToMap(t.right), t.key, t.value, FindMin(t).key);
    }
  }

  /**
   * remove(x, t): a missing key is an IllegalArgumentException and leaves the tree as it
   * was; a node with two children takes the minimum entry of its right subtree, which is
   * then removed from there; a node with at most one child is replaced by that child.
   */
  function RemoveFrom(x: int, t: Tree): (r: Result<Tree>)
    ensures r.Failure? ==> r.error == IllegalArgument
    ensures r.Success? ==> Keys(r.value) <= Keys(t)
  {
    if t.Nil? then Failure(IllegalArgument)
    else if x < t.key then
      var l := RemoveFrom(x, t.left);
      if l.Failure? then l else Success(Node(l.value, t.key, t.value, t.right))
    else if x > t.key then
      var rt := RemoveFrom(x, t.right);
      if rt.Failure? then rt else Success(Node(t.left, t.key, t.value, rt.value))
    else if t.left.Node? && t.right.Node? then
      var m := FindMin(t.right);
      Success(Node(t.left, m.key, m.value, RemoveMin(t.right).value))
    else Success(if t.left.Node? then t.left else t.right)
  }

  /** On a search tree, remove fails exactly for a missing key; otherwise it drops x and keeps the order. */
  lemma {:induction false} RemoveFromDrops(x: int, t: Tree)
    requires Ordered(t)
    ensures RemoveFrom(x, t).Failure? <==> x !in Keys(t)
    ensures RemoveFrom(x, t).Success? ==>
      Ordered(RemoveFrom(x, t).value) && ToMap(RemoveFrom(x, t).value) == ToMap(t) - {x}
  {
    if t.Node? {
      NodeMap(t);
      if x < t.key {
        RemoveFromDrops(x, t.left);
        if x in Keys(t.left) {
          MapRemoveLeft(ToMap(t.left), ToMap(t.right), t.key, t.value, x);
        }
      } else if x > t.key {
        RemoveFromDrops(x, t.right);
        if x in Keys(t.right) {
          MapRemoveRight(ToMap(t.left), ToMap(t.right), t.key, t.value, x);
        }
      } else if t.left.Node? && t.right.Node? {
        RemoveTwoChildren(t);
      } else {
        RemoveOneChild(t);
      }
    }
  }

  /** Map algebra of removing a key of the left subtree. */
  lemma {:induction false} MapRemoveLeft(ml: map<int, int>, mr: map<int, int>, k: int, v: int, x: int)
    requires x != k && x !in mr
    ensures ((ml - {x}) + mr)[k := v] == (ml + mr)[k := v] - {x}
  {
    var a, b := ((ml - {x}) + mr)[k := v], (ml + mr)[k := v] - {x};
    assert a.Keys == b.Keys;
  }

  /** Map algebra of removing a key of the right subtree. */
  lemma {:induction false} MapRemoveRight(ml: map<int, int>, mr: map<int, int>, k: int, v: int, x: int)
    requires x != k && x !in ml
    ensures (ml + (mr - {x}))[k := v] == (ml + mr)[k := v] - {x}
  {
    var a, b := (ml + (mr - {x}))[k := v], (ml + mr)[k := v] - {x};
    assert a.Keys == b.Keys;
  }

  /** The two-child case of remove: the right subtree's minimum takes the node's place. */
  lemma {:induction false} RemoveTwoChildren(t: Tree)
    requires t.Node? && t.right.Node? && Ordered(t)
    ensures var m := FindMin(t.right);
      var r := Node(t.left, m.key, m.value, RemoveMin(t.right).value);
      Ordered(r) && ToMap(r) == ToMap(t) - {t.key}
  {
    NodeMap(t);
    FindMinLeast(t.right);
    RemoveMinDrops(t.right);
    var m := FindMin(t.right);
    var r := Node(t.left, m.key, m.value, RemoveMin(t.right).value);
    assert Keys(r.right) == Keys(t.right) - {m.key};
    assert t.key < m.key;
    assert forall k :: k in Keys(r.left) ==> k < m.key;
    forall k | k in Keys(r.right)
      ensures m.key < k
    {
      assert k in Keys(t.right) && k != m.key;
    }
    assert Ordered(r);
    assert ToMap(r) == (ToMap(t.left) + (ToMap(t.right) - {m.key}))[m.key := m.value];
    MapReplaceRoot(ToMap(t.left), ToMap(t.right), t.key, t.value, m.key, m.value);
  }

  /** Map algebra of the two-child case: the root pair leaves and the right minimum moves up. */
  lemma {:induction false} MapReplaceRoot(ml: map<int, int>, mr: map<int, int>, k: int, v: int, mk: int, mv: int)
    requires ml.Keys !! mr.Keys && k !in ml.Keys + mr.Keys && mk in mr && mr[mk] == mv
    ensures (ml + (mr - {mk}))[mk := mv] == (ml + mr)[k := v] - {k}
  {
    var a, b := (ml + (mr - {mk}))[mk := mv], (ml + mr)[k := v] - {k};
    assert mk !in ml;
    assert a.Keys == b.Keys;
  }

  /** The case of remove with at most one child: the child takes the node's place. */
  lemma {:induction false} RemoveOneChild(t: Tree)
    requires t.Node? && !(t.left.Node? && t.right.Node?) && Ordered(t)
    ensures var r := RemoveFrom(t.key, t).value;
      Ordered(r) && ToMap(r) == ToMap(t) - {t.key}
  {
    NodeMap(t);
    var r := RemoveFrom(t.key, t).value;
    assert ToMap(r).Keys == (ToMap(t) - {t.key}).Keys;
  }

  /**
   * findMinFrequency(min, root): the entry of least value among `min` and the tree,
   * visiting a node before its left subtree, re-checking the node, then its right subtree.
   */
  function FindMinFrequency(min: Entry, t: Tree): (r: Entry)
    ensures r.value <= min.value
    ensures r == min || r in InOrder(t)
    decreases t
  {
    if t.Nil? then min
    else
      var node := Entry(t.key, t.value);
      var m := if t.value <= min.value then FindMinFrequency(node, t.left) else FindMinFrequency(min, t.left);
      if t.value <= m.value then FindMinFrequency(node, t.right) else FindMinFrequency(m, t.right)
  }

  /**
   * Offering the node before the left subtree changes nothing once the node is offered
   * again after it: a tie (<=) goes to the entry met later either way.
   */
  lemma {:induction false} ScanNodeTwice(min: Entry, node: Entry, l: seq<Entry>)
    ensures var a := LastMinimum(if node.value <= min.value then node else min, l);
      (if node.value <= a.value then node else a) == LastMinimum(min, l + [node])
  {
    LastMinimumAppend(min, l, [node]);
    var b := LastMinimum(min, l);
    assert LastMinimum(b, [node]) == if node.value <= b.value then node else b;
    if node.value <= min.value {
      if exists e :: e in l && e.value < node.value {
        LastMinimumForgets(node, min, l);
      } else {
        LastMinimumIsLastMin(node, l);
        LastMinimumIsLastMin(min, l);
        var a := LastMinimum(node, l);
        var k :| 0 <= k < |[node] + l| && ([node] + l)[k] == a;
        var k' :| 0 <= k' < |[min] + l| && ([min] + l)[k'] == b;
        assert k > 0 ==> a in l;
        assert k' > 0 ==> b in l;
      }
    }
  }

  /**
   * The tie rule of findMinFrequency: it is the scan over the in-order listing in which
   * a later entry of equal value wins, so it returns the last minimum of [min] + InOrder(t).
   */
  lemma {:induction false} FindMinFrequencyIsLastMinimum(min: Entry, t: Tree)
    ensures FindMinFrequency(min, t) == LastMinimum(min, InOrder(t))
    decreases t
  {
    if t.Node? {
      var node := Entry(t.key, t.value);
      var l, r := InOrder(t.left), InOrder(t.right);
      var start := if t.value <= min.value then node else min;
      FindMinFrequencyIsLastMinimum(start, t.left);
      var m := FindMinFrequency(start, t.left);
      var next := if t.value <= m.value then node else m;
      FindMinFrequencyIsLastMinimum(next, t.right);
      ScanNodeTwice(min, node, l);
      LastMinimumAppend(min, l + [node], r);
      assert InOrder(t) == l + [node] + r;
    }
  }

  /**
   * The PrintMostFrequent helper: offers the node's entry to the buffer, then recurses
   * into the right subtree and then the left one.
   */
  method FillMostFrequent(buf: array<Option<Entry>>, t: Tree)
    modifies buf
    ensures buf[..] == PlacedAll(old(buf[..]), Visit(t))
  {
    if t.Node? {
      var node := Entry(t.key, t.value);
      ghost var b0 := buf[..];
      Place(buf, node);
      ghost var b1 := buf[..];
      FillMostFrequent(buf, t.right);
      ghost var b2 := buf[..];
      FillMostFrequent(buf, t.left);
      PlacedAllAppend(b1, Visit(t.right), Visit(t.left));
      assert Visit(t) == [node] + (Visit(t.right) + Visit(t.left));
    }
  }

  /**
   * The top-n pass of PrintMostFrequent from a seed m no larger than any value in the
   * tree: put m in slot n-1, run the helper over the tree, and report the populated
   * slots in slot order. An n the arrays cannot be built with is the exception the
   * array operation throws.
   */
  method ScanFrom(t: Tree, n: int, m: Entry) returns (r: Result<seq<Entry>>)
    requires forall e :: e in InOrder(t) ==> m.value <= e.value
    ensures n < 0 ==> r == Failure(NegativeArraySize)
    ensures n == 0 ==> r == Failure(IndexOutOfBounds)
    ensures n >= 1 ==> r.Success? && r.value == Values(PlacedAll(Seed(n, m), Visit(t)))
    ensures n >= 1 ==> r.Success? && TopOf(r.value, n, multiset{m} + multiset(InOrder(t)))
  {
    if n < 0 {
      return Failure(NegativeArraySize);
    }
    if n == 0 {
      return Failure(IndexOutOfBounds);
    }
    var buf := new Option<Entry>[n](_ => None);
    buf[n - 1] := Some(m);
    assert buf[..] == Seed(n, m);
    FillMostFrequent(buf, t);
    VisitPermutesInOrder(t);
    forall e | e in Visit(t)
      ensures m.value <= e.value
    {
      assert e in multiset(InOrder(t));
    }
    Report(n, m, Visit(t));
    assert multiset([m] + Visit(t)) == multiset{m} + multiset(InOrder(t));
    return Success(Values(buf[..]));
  }

  /** findMinFrequency(root, root) is no larger than any value in the tree. */
  lemma {:induction false} FindMinFrequencyLeast(t: Tree)
    requires t.Node?
    ensures forall e :: e in InOrder(t) ==> FindMinFrequency(Entry(t.key, t.value), t).value <= e.value
  {
    var m := FindMinFrequency(Entry(t.key, t.value), t);
    FindMinFrequencyIsLastMinimum(Entry(t.key, t.value), t);
    LastMinimumIsLastMin(Entry(t.key, t.value), InOrder(t));
    forall e | e in InOrder(t)
      ensures m.value <= e.value
    {
      var s := [Entry(t.key, t.value)] + InOrder(t);
      var j :| 0 <= j < |InOrder(t)| && InOrder(t)[j] == e;
      assert s[j + 1] == e;
    }
  }

  /**
   * PrintMostFrequent(n) on a non-empty tree: seed slot n-1 with findMinFrequency(root,
   * root), run the helper over the tree, and print the populated slots in slot order.
   */
  method MostFrequent(t: Tree, n: int) returns (r: Result<seq<Entry>>)
    requires t.Node?
    ensures n < 0 ==> r == Failure(NegativeArraySize)
    ensures n == 0 ==> r == Failure(IndexOutOfBounds)
    ensures n >= 1 ==> (r.Success? &&
      var m := FindMinFrequency(Entry(t.key, t.value), t);
      r.value == Values(PlacedAll(Seed(n, m), Visit(t))) &&
      TopOf(r.value, n, multiset{m} + multiset(InOrder(t))))
  {
    FindMinFrequencyLeast(t);
    r := ScanFrom(t, n, FindMinFrequency(Entry(t.key, t.value), t));
  }

  /** The container object: a root that put and remove replace. */
  class BinarySearchTree {
    var root: Tree

    ghost predicate Valid()
      reads this
    {
      Ordered(root)
    }

    constructor ()
      ensures Valid() && root == Nil
    {
      root := Nil;
    }

    method Get(x: int) returns (r: Option<int>)
      requires Valid()
      ensures r == if x in ToMap(root) then Some(ToMap(root)[x]) else None
    {
      r := Lookup(x, root);
      LookupFinds(x, root);
    }

    method Put(x: int, y: int)
      requires Valid()
      modifies this
      ensures Valid() && ToMap(root) == old(ToMap(root))[x := y]
    {
      InsertUpdates(x, y, root);
      root := Insert(x, y, root);
    }

    method Remove(x: int) returns (o: Outcome)
      requires Valid()
      modifies this
      ensures Valid()
      ensures x !in old(ToMap(root)) ==> o == Fail(IllegalArgument) && root == old(root)
      ensures x in old(ToMap(root)) ==> o == Pass && ToMap(root) == old(ToMap(root)) - {x}
    {
      var r := RemoveFrom(x, root);
      RemoveFromDrops(x, root);
      if r.Failure? {
        return Fail(r.error);
      }
      root := r.value;
      return Pass;
    }

    method IsEmpty() returns (b: bool)
      ensures b <==> ToMap(root) == map[]
    {
      b := root.Nil?;
      assert root.Node? ==> root.key in ToMap(root);
    }

    /** toString: the entries in ascending key order; an empty tree is a NoSuchElementException. */
    method ToString() returns (r: Result<seq<Entry>>)
      requires Valid()
      ensures ToMap(root) == map[] <==> r == Failure(NoSuchElement)
      ensures r.Success? ==> StrictlyAscending(r.value) && |r.value| == |ToMap(root)|
      ensures r.Success? ==> forall e :: e in r.value <==> e.key in ToMap(root) && ToMap(root)[e.key] == e.value
    {
      assert root.Node? ==> root.key in ToMap(root);
      if root.Nil? {
        return Failure(NoSuchElement);
      }
      InOrderAscending(root);
      InOrderMembers(root);
      InOrderSize(root);
      return Success(InOrder(root));
    }

    /** PrintMostFrequent(n): an empty tree is a NoSuchElementException. */
    method PrintMostFrequent(n: int) returns (r: Result<seq<Entry>>)
      ensures root.Nil? ==> r == Failure(NoSuchElement)
      ensures root.Node? && n < 0 ==> r == Failure(NegativeArraySize)
      ensures root.Node? && n == 0 ==> r == Failure(IndexOutOfBounds)
      ensures root.Node? && n >= 1 ==> (r.Success? &&
        var m := FindMinFrequency(Entry(root.key, root.value), root);
        TopOf(r.value, n, multiset{m} + multiset(InOrder(root))))
    {
      if root.Nil? {
        return Failure(NoSuchElement);
      }
      r := MostFrequent(root, n);
    }
  }
}
