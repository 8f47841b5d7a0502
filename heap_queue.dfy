/**
 * HeapPriorityQueue: a binary min-heap ordered by key in slots 1..size of an array
 * (slot 0 is unused), growing by doubling. put adds a key or overwrites the value of a
 * key already present; remove() takes the root; toString drains the heap in key order
 * and adds everything back; PrintMostFrequent runs the top-n selection over the slots.
 */
module HeapQueue {
  import opened Common
  import opened TopFrequent
  import opened Records

  /** INITSIZE: the length of a new heap's array. */
  const InitialSize := 10

  /** What the model keeps in a slot that holds null: slot 0 and slots above size, which no operation reads. */
  const Vacant := Entry(0, 0)

  // ---------------------------------------------------------------------------------
  // Index helpers
  // ---------------------------------------------------------------------------------

  /** parent(index): the slot above a non-root slot; its children are index's siblings and index. */
  function Parent(index: int): (r: int)
    ensures index >= 2 ==> 1 <= r < index && (LeftChild(r) == index || RightChild(r) == index)
  {
    index / 2
  }

  function LeftChild(index: int): int
  {
    index * 2
  }

  function RightChild(index: int): int
  {
    index * 2 + 1
  }

  /** Both children of a slot have it as their parent. */
  lemma {:induction false} ChildrenOfParent(index: int)
    requires index >= 1
    ensures Parent(LeftChild(index)) == index && Parent(RightChild(index)) == index
    ensures LeftChild(index) >= 2 && RightChild(index) >= 2
  {
  }

  function HasParent(index: int): bool
  {
    index > 1
  }

  function HasLeftChild(index: int, size: int): bool
  {
    LeftChild(index) <= size
  }

  function HasRightChild(index: int, size: int): bool
  {
    RightChild(index) <= size
  }

  // ---------------------------------------------------------------------------------
  // Heap order on slots 1..n of a sequence of slots
  // ---------------------------------------------------------------------------------

  /** Every slot 2..n holds a key no smaller than its parent's. */
  ghost predicate HeapOrdered(a: seq<Entry>, n: int)
  {
    && 0 <= n < |a|
    && forall i :: 2 <= i <= n ==> a[i / 2].key <= a[i].key
  }

  /** The root holds the least key: every slot is reached from slot 1 through parents. */
  lemma {:induction false} RootIsMinimum(a: seq<Entry>, n: int, i: int)
    requires HeapOrdered(a, n) && 1 <= i <= n
    ensures a[1].key <= a[i].key
    decreases i
  {
    if i >= 2 {
      RootIsMinimum(a, n, i / 2);
    }
  }

  /** peek's promise: the root's key is the least key among slots 1..n. */
  lemma {:induction false} RootIsLeast(a: seq<Entry>, n: int)
    requires HeapOrdered(a, n) && n >= 1
    ensures forall e :: e in a[1..n + 1] ==> a[1].key <= e.key
  {
    forall e | e in a[1..n + 1]
      ensures a[1].key <= e.key
    {
      var k :| 0 <= k < n && a[1..n + 1][k] == e;
      RootIsMinimum(a, n, k + 1);
    }
  }

  /** remove's move of slot n to the root drops the root's entry from slots 1..n. */
  lemma {:induction false} RootReplaced(a: seq<Entry>, n: int)
    requires 1 <= n < |a|
    ensures multiset(a[1 := a[n]][1..n]) == multiset(a[1..n + 1]) - multiset{a[1]}
  {
    var b := a[1 := a[n]];
    if n >= 2 {
      assert b[1..n] == [a[n]] + a[2..n];
      assert a[1..n + 1] == [a[1]] + a[2..n] + [a[n]];
    } else {
      assert a[1..n + 1] == [a[1]];
    }
  }

  /** add's store of a new entry in slot n + 1 after a heap of n slots. */
  lemma {:induction false} StoredLast(a: seq<Entry>, n: int, e: Entry)
    requires HeapOrdered(a, n) && n + 1 < |a|
    ensures HeapOrdered(a[n + 1 := e], n)
    ensures a[n + 1 := e][1..n + 1] == a[1..n + 1] && a[n + 1 := e][1..n + 2] == a[1..n + 1] + [e]
  {
    assert forall j :: 0 <= j <= n ==> a[n + 1 := e][j] == a[j];
  }

  /**
   * remove's result: after slot n moved to the root and the bubble-down over n - 1 slots,
   * those slots hold the old entries less the root's, with distinct keys, and the slots
   * from n on are as before.
   */
  lemma {:induction false} RemovedRoot(a: seq<Entry>, fin: seq<Entry>, n: int)
    requires 1 <= n < |a| && |fin| == |a| && DistinctKeys(a[1..n + 1])
    requires multiset(fin[1..n]) == multiset(a[1 := a[n]][1..n])
    requires fin[n..] == a[1 := a[n]][n..]
    ensures multiset(fin[1..n]) == multiset(a[1..n + 1]) - multiset{a[1]}
    ensures DistinctKeys(fin[1..n])
    ensures fin[n..] == a[n..]
  {
    RootReplaced(a, n);
    DistinctKeysUnique(a[1..n + 1]);
    UniqueSub(multiset(a[1..n + 1]), multiset(fin[1..n]));
    DistinctKeysUnique(fin[1..n]);
    if n == 1 {
      assert a[1 := a[n]] == a;
    } else {
      assert a[1 := a[n]][n..] == a[n..];
    }
  }

  /**
   * One round of toString's drain: the least entry x leaves the heap's entries e for e2
   * and joins the drained entries p, which stay in ascending key order below every
   * entry left.
   */
  lemma {:induction false} DrainStep(p: seq<Entry>, x: Entry, e: seq<Entry>, e2: seq<Entry>)
    requires StrictlyAscending(p) && (|p| > 0 ==> forall y :: y in e ==> p[|p| - 1].key < y.key)
    requires DistinctKeys(e) && x in e && forall y :: y in e ==> x.key <= y.key
    requires multiset(e2) == multiset(e) - multiset{x}
    ensures StrictlyAscending(p + [x])
    ensures forall y :: y in e2 ==> x.key < y.key
    ensures multiset(p + [x]) + multiset(e2) == multiset(p) + multiset(e)
  {
    DistinctKeysUnique(e);
    LeastIsStrict(multiset(e), x);
    forall y | y in e2
      ensures x.key < y.key
    {
      assert y in multiset(e2);
    }
  }

  /** In a multiset of distinct keys, an entry of least key is strictly below every other entry. */
  lemma {:induction false} LeastIsStrict(m: multiset<Entry>, x: Entry)
    requires UniqueKeys(m) && x in m && forall e :: e in m ==> x.key <= e.key
    ensures forall e :: e in m - multiset{x} ==> x.key < e.key
  {
    forall e | e in m - multiset{x}
      ensures x.key < e.key
    {
      assert (m - multiset{x})[x] == 0 && e in m;
    }
  }

  /** With distinct keys, the value found for a key is the only one stored with it. */
  lemma {:induction false} UniqueValue(s: seq<Entry>, key: int, v: int)
    requires DistinctKeys(s) && Entry(key, v) in s
    ensures Find(s, key) == Some(v)
    ensures forall w :: Entry(key, w) in s <==> w == v
  {
    DistinctKeysUnique(s);
    assert Entry(key, v) in multiset(s);
    assert Entry(key, Find(s, key).val) in multiset(s);
    forall w | Entry(key, w) in s
      ensures w == v
    {
      assert Entry(key, w) in multiset(s);
    }
  }

  /**
   * add's overwrite of slot i, the first of slots 1..n holding key: the heap order and
   * the distinct keys stay, key now finds the new value and every other key what it found.
   */
  lemma {:induction false} Overwritten(a: seq<Entry>, s: seq<Entry>, n: int, i: int, key: int, value: int)
    requires HeapOrdered(a, n) && DistinctKeys(s) && s == a[1..n + 1]
    requires 1 <= i <= n && a[i].key == key && forall j :: 0 <= j < i - 1 ==> s[j].key != key
    ensures var b := a[i := Entry(key, value)];
      && HeapOrdered(b, n)
      && Find(s, key).Some?
      && b[1..n + 1] == Overwrite(s, key, value)
      && DistinctKeys(b[1..n + 1])
      && Find(b[1..n + 1], key) == Some(value)
      && forall k :: k != key ==> Find(b[1..n + 1], k) == Find(s, k)
  {
    var b := a[i := Entry(key, value)];
    assert s[i - 1] == a[i];
    assert b[1..n + 1] == s[i - 1 := Entry(key, value)];
    DistinctKeysUnique(s);
    OverwriteFirstAt(s, i - 1, key, value);
    DistinctKeysUnique(b[1..n + 1]);
    SameKeysOrdered(a, b, n);
  }

  /** Slots with the same keys are heap-ordered together. */
  lemma {:induction false} SameKeysOrdered(a: seq<Entry>, b: seq<Entry>, n: int)
    requires HeapOrdered(a, n) && |b| == |a| && forall j :: 0 <= j < |a| ==> b[j].key == a[j].key
    ensures HeapOrdered(b, n)
  {
  }

  /**
   * add's new entry: stored in slot n after the n - 1 slots `s` and bubbled up into
   * `final`. The slots hold s and the entry, keys stay distinct, key finds the new value,
   * other keys what they found, and an entry above every key stays in slot n.
   */
  lemma {:induction false} Appended(final: seq<Entry>, placed: seq<Entry>, s: seq<Entry>, n: int, key: int, value: int)
    requires 1 <= n < |placed| && |final| == |placed| && placed[1..n] == s && placed[n] == Entry(key, value)
    requires Find(s, key).None? && DistinctKeys(s)
    requires multiset(final[1..n + 1]) == multiset(placed[1..n + 1])
    requires n == 1 || placed[n / 2].key <= placed[n].key ==> final == placed
    ensures var t := final[1..n + 1];
      && multiset(t) == multiset(s) + multiset{Entry(key, value)}
      && DistinctKeys(t)
      && Find(t, key) == Some(value)
      && (forall k :: k != key ==> Find(t, k) == Find(s, k))
      && ((forall e :: e in s ==> e.key < key) ==> t == s + [Entry(key, value)])
  {
    assert placed[1..n + 1] == s + [Entry(key, value)];
    DistinctKeysUnique(s);
    FindNewKey(s, final[1..n + 1], key, value);
    DistinctKeysUnique(final[1..n + 1]);
    if n >= 2 {
      assert placed[n / 2] == s[n / 2 - 1];
    }
  }

  /** The slots after exchanging slots i and j. */
  function Swapped(a: seq<Entry>, i: int, j: int): (r: seq<Entry>)
    requires 0 <= i < |a| && 0 <= j < |a|
    ensures |r| == |a| && r[i] == a[j] && r[j] == a[i]
    ensures forall k :: 0 <= k < |a| && k != i && k != j ==> r[k] == a[k]
  {
    a[i := a[j]][j := a[i]]
  }

  /** Exchanging two slots of 1..n keeps the entries of 1..n and every slot outside. */
  lemma {:induction false} SwapKeeps(a: seq<Entry>, n: int, i: int, j: int)
    requires 1 <= i <= n && 1 <= j <= n && n < |a|
    ensures multiset(Swapped(a, i, j)[1..n + 1]) == multiset(a[1..n + 1])
  {
    var s := a[1..n + 1];
    var t := s[i - 1 := a[j]];
    assert Swapped(a, i, j)[1..n + 1] == t[j - 1 := a[i]];
    MultisetReplace(s, i - 1, a[j]);
    MultisetReplace(t, j - 1, a[i]);
  }

  /**
   * The bubble-up invariant: heap order holds at every slot but `index`, and index's
   * parent is no larger than index's children, so moving index's entry up is safe.
   */
  ghost predicate UpInvariant(a: seq<Entry>, n: int, index: int)
  {
    && 1 <= index <= n < |a|
    && (forall i :: 2 <= i <= n && i != index ==> a[i / 2].key <= a[i].key)
    && (forall c :: 2 <= c <= n && c / 2 == index && index >= 2 ==> a[index / 2].key <= a[c].key)
  }

  /** A new entry in slot n after a heap of n - 1 slots starts the bubble-up. */
  lemma {:induction false} UpStart(a: seq<Entry>, n: int)
    requires 1 <= n < |a| && HeapOrdered(a, n - 1)
    ensures UpInvariant(a, n, n)
  {
  }

  /** A swap with a larger parent moves the invariant's exception to the parent's slot. */
  lemma {:induction false} UpStep(a: seq<Entry>, n: int, index: int)
    requires UpInvariant(a, n, index) && index >= 2 && a[index].key < a[index / 2].key
    ensures UpInvariant(Swapped(a, index, index / 2), n, index / 2)
  {
    var p := index / 2;
    var b := Swapped(a, index, p);
    forall i | 2 <= i <= n && i != p
      ensures b[i / 2].key <= b[i].key
    {
      if i == index {
      } else if i / 2 == index {
        assert b[i] == a[i];
      } else if i / 2 == p {
        assert b[i] == a[i] && a[p].key <= a[i].key;
      } else {
        assert b[i] == a[i] && b[i / 2] == a[i / 2];
      }
    }
    forall c | 2 <= c <= n && c / 2 == p && p >= 2
      ensures b[p / 2].key <= b[c].key
    {
      assert b[p / 2] == a[p / 2] && a[p / 2].key <= a[p].key;
      if c != index {
        assert b[c] == a[c] && a[p].key <= a[c].key;
      }
    }
  }

  /** One swap of the bubble-up: the invariant moves up and the slots keep their entries. */
  lemma {:induction false} UpSwap(a: seq<Entry>, n: int, index: int)
    requires UpInvariant(a, n, index) && index >= 2 && a[index].key < a[index / 2].key
    ensures var b := Swapped(a, index, index / 2);
      && UpInvariant(b, n, index / 2)
      && multiset(b[1..n + 1]) == multiset(a[1..n + 1])
      && b[n + 1..] == a[n + 1..]
  {
    UpStep(a, n, index);
    SwapKeeps(a, n, index, index / 2);
    assert Swapped(a, index, index / 2)[n + 1..] == a[n + 1..];
  }

  /** The bubble-up stops at the root or below a parent that is no larger: the slots are a heap. */
  lemma {:induction false} UpDone(a: seq<Entry>, n: int, index: int)
    requires UpInvariant(a, n, index)
    requires index == 1 || a[index / 2].key <= a[index].key
    ensures HeapOrdered(a, n)
  {
  }

  /**
   * The bubble-down invariant: heap order holds below every slot but `index`, and
   * index's parent is no larger than index's children, so moving index's entry down is
   * safe.
   */
  ghost predicate DownInvariant(a: seq<Entry>, n: int, index: int)
  {
    && 1 <= index && 0 <= n < |a| && (index <= n || index == 1)
    && (forall i :: 2 <= i <= n && i / 2 != index ==> a[i / 2].key <= a[i].key)
    && (forall c :: 2 <= c <= n && c / 2 == index && index >= 2 ==> a[index / 2].key <= a[c].key)
  }

  /** remove's move of the last slot N to the root starts the bubble-down over N - 1 slots. */
  lemma {:induction false} DownStart(a: seq<Entry>, n: int)
    requires HeapOrdered(a, n) && n >= 1
    ensures DownInvariant(a[1 := a[n]], n - 1, 1)
  {
    var b := a[1 := a[n]];
    forall i | 2 <= i <= n - 1 && i / 2 != 1
      ensures b[i / 2].key <= b[i].key
    {
      assert b[i] == a[i] && b[i / 2] == a[i / 2];
    }
  }

  /** The child remove moves to: the right one only when it exists and is strictly smaller. */
  function SmallerChild(a: seq<Entry>, n: int, index: int): (r: int)
    requires 1 <= index && LeftChild(index) <= n < |a|
    ensures r == LeftChild(index) || r == RightChild(index)
    ensures index < r <= n
  {
    if HasRightChild(index, n) && a[RightChild(index)].key < a[LeftChild(index)].key then RightChild(index)
    else LeftChild(index)
  }

  /** The chosen child is no larger than either child. */
  lemma {:induction false} SmallerChildLeast(a: seq<Entry>, n: int, index: int)
    requires 1 <= index && LeftChild(index) <= n < |a|
    ensures forall c :: 2 <= c <= n && c / 2 == index ==> a[SmallerChild(a, n, index)].key <= a[c].key
  {
    forall c | 2 <= c <= n && c / 2 == index
      ensures a[SmallerChild(a, n, index)].key <= a[c].key
    {
      assert c == LeftChild(index) || c == RightChild(index);
    }
  }

  /** A swap with the smaller child, larger than index's entry, moves the exception to that child. */
  lemma {:induction false} DownStep(a: seq<Entry>, n: int, index: int)
    requires DownInvariant(a, n, index) && LeftChild(index) <= n
    requires a[index].key > a[SmallerChild(a, n, index)].key
    ensures DownInvariant(Swapped(a, index, SmallerChild(a, n, index)), n, SmallerChild(a, n, index))
  {
    var ch := SmallerChild(a, n, index);
    var b := Swapped(a, index, ch);
    SmallerChildLeast(a, n, index);
    forall i | 2 <= i <= n && i / 2 != ch
      ensures b[i / 2].key <= b[i].key
    {
      if i == ch {
      } else if i / 2 == index {
        assert b[i] == a[i];
      } else if i == index {
        assert b[i / 2] == a[i / 2];
      } else {
        assert b[i] == a[i] && b[i / 2] == a[i / 2];
      }
    }
    forall c | 2 <= c <= n && c / 2 == ch
      ensures b[ch / 2].key <= b[c].key
    {
      assert b[c] == a[c];
    }
  }

  /** One swap of the bubble-down: the invariant moves down and the slots keep their entries. */
  lemma {:induction false} DownSwap(a: seq<Entry>, n: int, index: int)
    requires DownInvariant(a, n, index) && LeftChild(index) <= n
    requires a[index].key > a[SmallerChild(a, n, index)].key
    ensures var ch := SmallerChild(a, n, index);
      var b := Swapped(a, index, ch);
      && DownInvariant(b, n, ch)
      && multiset(b[1..n + 1]) == multiset(a[1..n + 1])
      && b[n + 1..] == a[n + 1..]
  {
    var ch := SmallerChild(a, n, index);
    DownStep(a, n, index);
    SwapKeeps(a, n, index, ch);
    assert Swapped(a, index, ch)[n + 1..] == a[n + 1..];
  }

  /** The bubble-down stops when the slot has no child or is no larger than its smaller child: a heap. */
  lemma {:induction false} DownDone(a: seq<Entry>, n: int, index: int)
    requires DownInvariant(a, n, index)
    requires LeftChild(index) <= n ==> a[index].key <= a[SmallerChild(a, n, index)].key
    ensures HeapOrdered(a, n)
  {
    if LeftChild(index) <= n {
      SmallerChildLeast(a, n, index);
    }
    forall i | 2 <= i <= n
      ensures a[i / 2].key <= a[i].key
    {
      if i / 2 == index {
        assert LeftChild(index) <= i;
      }
    }
  }

  // ---------------------------------------------------------------------------------
  // PrintMostFrequent
  // ---------------------------------------------------------------------------------

  /** The entries of `s` from the last one to the first: the order a downward slot scan offers them. */
  function Reversed(s: seq<Entry>): (r: seq<Entry>)
    ensures |r| == |s|
    decreases |s|
  {
    if s == [] then [] else Reversed(s[1..]) + [s[0]]
  }

  lemma {:induction false} ReversedPermutes(s: seq<Entry>)
    ensures multiset(Reversed(s)) == multiset(s)
    decreases |s|
  {
    if s != [] {
      ReversedPermutes(s[1..]);
      assert s == [s[0]] + s[1..];
    }
  }

  /** A scan that reaches x after the entries t: the reversal of [x] + t. */
  lemma {:induction false} ReversedCons(x: Entry, t: seq<Entry>)
    ensures Reversed([x] + t) == Reversed(t) + [x]
  {
    assert ([x] + t)[1..] == t;
  }

  /**
   * What PrintMostFrequent prints for the entries `s` of slots 1..size: slot n-1 seeded
   * with slot 1 (the least key), then the slots size-1 down to 1 offered in turn, so the
   * last slot is never offered and slot 1 is offered a second time.
   */
  function MostFrequentAsWritten(s: seq<Entry>, n: int): (r: seq<Entry>)
    requires |s| >= 1 && n >= 1
    ensures |r| <= n
  {
    Values(PlacedAll(Seed(n, s[0]), Reversed(s[..|s| - 1])))
  }

  /** The printed entries are sorted by value, at most n, and drawn from the seed and slots 1..size-1. */
  lemma {:induction false} MostFrequentAsWrittenDraws(s: seq<Entry>, n: int)
    requires |s| >= 1 && n >= 1
    ensures var r := MostFrequentAsWritten(s, n);
      && SortedByValue(r) && |r| <= n
      && multiset(r) <= multiset{s[0]} + multiset(s[..|s| - 1])
  {
    var es := Reversed(s[..|s| - 1]);
    SeedShape(n, s[0]);
    PlacedAllWellFormed(Seed(n, s[0]), es);
    ValuesSorted(PlacedAll(Seed(n, s[0]), es));
    PlacedAllFrom(Seed(n, s[0]), es);
    ReversedPermutes(s[..|s| - 1]);
  }

  /**
   * The heap of two entries, key 1 with frequency 1 at the root and key 2 with frequency
   * 9 in slot 2: PrintMostFrequent(1) prints the root, never having looked at slot 2.
   */
  lemma {:induction false} ScanSkipsLastSlot()
    ensures var a := [Vacant, Entry(1, 1), Entry(2, 9)];
      && HeapOrdered(a, 2)
      && MostFrequentAsWritten(a[1..3], 1) == [Entry(1, 1)]
      && Entry(2, 9) in a[1..3] && Entry(2, 9).value > Entry(1, 1).value
  {
    var a := [Vacant, Entry(1, 1), Entry(2, 9)];
    var s := a[1..3];
    assert s[..1] == [Entry(1, 1)] && s[1] == Entry(2, 9);
    assert Reversed([Entry(1, 1)]) == [Entry(1, 1)] by {
      assert [Entry(1, 1)][1..] == [];
    }
    var b := Seed(1, Entry(1, 1));
    assert b == [Some(Entry(1, 1))];
    assert Target(b, Entry(1, 1), 0) == Some(0);
    assert Placed(b, Entry(1, 1)) == b;
    assert PlacedAll(b, [Entry(1, 1)]) == PlacedAll(b, []) by {
      assert [Entry(1, 1)][1..] == [];
    }
    assert Values(b) == [Entry(1, 1)] by {
      assert b[1..] == [];
    }
  }

  /**
   * The heap of key 1 with frequency 5 at the root and key 2 with frequency 1 in slot 2:
   * even with slot 2 offered, PrintMostFrequent(3) seeded with the root drops key 2,
   * which is below the seed, although a slot stays free.
   */
  lemma {:induction false} SeedAboveMinimum()
    ensures var s := [Entry(1, 5), Entry(2, 1)];
      && HeapOrdered([Vacant] + s, 2)
      && Values(PlacedAll(Seed(3, s[0]), Reversed(s))) == [Entry(1, 5), Entry(1, 5)]
      && Entry(2, 1) in s
  {
    var s := [Entry(1, 5), Entry(2, 1)];
    var e, f := Entry(1, 5), Entry(2, 1);
    assert Reversed(s) == [f, e] by {
      assert s[1..] == [f] && [f][1..] == [];
    }
    var b := Seed(3, e);
    assert b == [None, None, Some(e)];
    assert Target(b, f, 2) == None by {
      assert Target(b, f, 1) == None;
    }
    assert Placed(b, f) == b;
    var c := [None, Some(e), Some(e)];
    assert Target(b, e, 2) == Some(2);
    assert Placed(b, e) == c by {
      assert b[1..3] + [Some(e)] + b[3..] == c;
    }
    assert PlacedAll(b, [f, e]) == PlacedAll(Placed(b, f), [e]) by {
      assert [f, e][1..] == [e];
    }
    assert PlacedAll(b, [e]) == PlacedAll(c, []) by {
      assert [e][1..] == [];
    }
    assert Values(c) == [e, e] by {
      assert c == [None] + ([Some(e)] + [Some(e)]);
      ValuesAppend([None], [Some(e)] + [Some(e)]);
      ValuesAppend([Some(e)], [Some(e)]);
      ValuesSingle(None);
      ValuesSingle(Some(e));
    }
  }

  /**
   * PrintMostFrequent as evidently intended, the same selection as the other
   * containers: seeded with the first entry of least frequency and offered every slot
   * from size down to 1.
   */
  function MostFrequentFixed(s: seq<Entry>, n: int): (r: seq<Entry>)
    requires |s| >= 1 && n >= 1
    ensures |r| <= n
  {
    Values(PlacedAll(Seed(n, FirstMinimum(s[0], s)), Reversed(s)))
  }

  /** The corrected selection prints the top n of the seed and all the heap's entries. */
  lemma {:induction false} MostFrequentFixedIsTop(s: seq<Entry>, n: int)
    requires |s| >= 1 && n >= 1
    ensures var m := FirstMinimum(s[0], s);
      TopOf(MostFrequentFixed(s, n), n, multiset{m} + multiset(s))
  {
    var m := FirstMinimum(s[0], s);
    FirstMinimumOfAll(s);
    ReversedPermutes(s);
    forall e | e in Reversed(s)
      ensures m.value <= e.value
    {
      assert e in multiset(Reversed(s));
    }
    Report(n, m, Reversed(s));
    assert multiset([m] + Reversed(s)) == multiset{m} + multiset(s);
  }

  /** PrintMostFrequent's buffer of n slots, all free but slot n-1, which holds m. */
  method SeedBuffer(n: int, m: Entry) returns (nodes: array<Option<Entry>>)
    requires n >= 1
    ensures fresh(nodes) && nodes[..] == Seed(n, m)
  {
    nodes := new Option<Entry>[n](i => if i == n - 1 then Some(m) else None);
  }

  /** The outer loop of PrintMostFrequent: slots hi down to 1 of d offered to the buffer in turn. */
  method OfferDown(buf: array<Option<Entry>>, d: array<Entry>, hi: int)
    requires 0 <= hi < d.Length
    modifies buf
    ensures buf[..] == PlacedAll(old(buf[..]), Reversed(d[1..hi + 1]))
  {
    ghost var b0 := buf[..];
    var j := hi;
    assert d[j + 1..hi + 1] == [];
    while j > 0
      invariant 0 <= j <= hi
      invariant buf[..] == PlacedAll(b0, Reversed(d[j + 1..hi + 1]))
    {
      var x := d[j];
      assert d[j..hi + 1] == [x] + d[j + 1..hi + 1];
      ReversedCons(x, d[j + 1..hi + 1]);
      PlacedAllSnoc(b0, Reversed(d[j + 1..hi + 1]), x);
      Place(buf, x);
      j := j - 1;
    }
  }

  // ---------------------------------------------------------------------------------
  // The queue
  // ---------------------------------------------------------------------------------

  /** swap(a, index1, index2): exchanges two slots of an array. */
  method Swap(a: array<Entry>, index1: int, index2: int)
    requires 0 <= index1 < a.Length && 0 <= index2 < a.Length
    modifies a
    ensures a[..] == Swapped(old(a[..]), index1, index2)
  {
    var temp := a[index1];
    a[index1] := a[index2];
    a[index2] := temp;
  }

  /** Arrays.copyOf(a, newLength) for a longer array: a fresh array holding a's slots, then null slots. */
  method CopyOf(a: array<Entry>, newLength: int) returns (r: array<Entry>)
    requires newLength >= a.Length
    ensures fresh(r) && r.Length == newLength
    ensures r[..a.Length] == a[..]
    ensures forall i :: a.Length <= i < newLength ==> r[i] == Vacant
  {
    r := new Entry[newLength](_ => Vacant);
    var i := 0;
    while i < a.Length
      invariant 0 <= i <= a.Length
      invariant forall k :: 0 <= k < i ==> r[k] == a[k]
      invariant forall k :: i <= k < newLength ==> r[k] == Vacant
    {
      r[i] := a[i];
      i := i + 1;
    }
    assert r[..a.Length] == a[..];
  }

  class HeapPriorityQueue {
    /** The slots; slot 0 is unused and the heap occupies slots 1..size. */
    var data: array<Entry>
    var size: int

    /** Slots 1..size, all below the array's end, form a heap of entries with distinct keys. */
    ghost predicate Valid()
      reads this, data
    {
      && 0 <= size < data.Length
      && HeapOrdered(data[..], size)
      && DistinctKeys(data[1..size + 1])
    }

    /** The entries of slots 1..size, in slot order. */
    ghost function Elements(): seq<Entry>
      reads this, data
      requires 0 <= size < data.Length
    {
      data[1..size + 1]
    }

    constructor ()
      ensures Valid() && fresh(data)
      ensures data.Length == InitialSize && Elements() == []
    {
      data := new Entry[InitialSize](_ => Vacant);
      size := 0;
    }

    method IsEmpty() returns (r: bool)
      requires Valid()
      ensures r <==> Elements() == []
    {
      return size == 0;
    }

    method Size() returns (r: int)
      requires Valid()
      ensures r == |Elements()|
    {
      return size;
    }

    /** get(key): the value of the slot holding key, scanning slots 1..size, or null. */
    method Get(key: int) returns (r: Option<int>)
      requires Valid()
      ensures r == Find(Elements(), key)
      ensures forall v :: r == Some(v) <==> Entry(key, v) in Elements()
    {
      if size == 0 {
        return None;
      }
      ghost var s := Elements();
      var i := 1;
      while i <= size
        invariant 1 <= i <= size + 1
        invariant Find(s[i - 1..], key) == Find(s, key)
      {
        assert s[i - 1..][0] == data[i];
        if data[i].key == key {
          r := Some(data[i].value);
          UniqueValue(s, key, data[i].value);
          return;
        }
        assert s[i - 1..][1..] == s[i..];
        i := i + 1;
      }
      r := None;
    }

    /** remove(key): a heap cannot remove an arbitrary key, so the call always throws. */
    method Remove(key: int) returns (r: Outcome)
      requires Valid()
      ensures r == Fail(UnsupportedOperation)
    {
      return Fail(UnsupportedOperation);
    }

    /** peek(): the root's key, the least key, or NoSuchElement when the heap is empty. */
    method Peek() returns (r: Result<int>)
      requires Valid()
      ensures size == 0 <==> r == Failure(NoSuchElement)
      ensures size > 0 ==> r == Success(data[1].key) && data[1] in Elements()
      ensures size > 0 ==> forall e :: e in Elements() ==> r.value <= e.key
    {
      if size == 0 {
        return Failure(NoSuchElement);
      }
      RootIsLeast(data[..], size);
      assert Elements()[0] == data[1];
      return Success(data[1].key);
    }

    /** The doubling of add: data = Arrays.copyOf(data, data.length * 2). */
    method Grow()
      requires Valid()
      modifies this
      ensures Valid() && fresh(data) && size == old(size) && Elements() == old(Elements())
      ensures data.Length == 2 * old(data.Length)
      ensures data[..old(data.Length)] == old(data[..])
      ensures forall i :: old(data.Length) <= i < data.Length ==> data[i] == Vacant
    {
      ghost var a := data[..];
      data := CopyOf(data, data.Length * 2);
      assert data[..|a|] == a;
      assert data[1..size + 1] == a[1..size + 1];
      assert forall i :: 0 <= i < |a| ==> data[..][i] == a[i];
    }

    /**
     * The bubble-up of add for a new entry in slot n after a heap of n - 1 slots: swap it
     * with its parent while its key is smaller.
     */
    method BubbleUp(n: int)
      requires 1 <= n < data.Length && HeapOrdered(data[..], n - 1)
      modifies data
      ensures HeapOrdered(data[..], n)
      ensures multiset(data[1..n + 1]) == multiset(old(data[1..n + 1]))
      ensures data[n + 1..] == old(data[n + 1..])
      ensures n == 1 || old(data[n / 2]).key <= old(data[n]).key ==> data[..] == old(data[..])
    {
      ghost var a0 := data[..];
      ghost var cur := a0;
      assert data[1..n + 1] == a0[1..n + 1] && data[n + 1..] == a0[n + 1..];
      UpStart(a0, n);
      var index := n;
      var found := false;
      while !found && HasParent(index)
        invariant data[..] == cur && |cur| == |a0|
        invariant 1 <= index <= n
        invariant UpInvariant(cur, n, index)
        invariant found ==> cur[index / 2].key <= cur[index].key
        invariant multiset(cur[1..n + 1]) == multiset(a0[1..n + 1])
        invariant cur[n + 1..] == a0[n + 1..]
        invariant n == 1 || a0[n / 2].key <= a0[n].key ==> cur == a0 && index == n
        decreases index, !found
      {
        var parent := Parent(index);
        if data[index].key < data[parent].key {
          UpSwap(cur, n, index);
          Swap(data, index, parent);
          cur := Swapped(cur, index, parent);
          index := parent;
        } else {
          found := true;
        }
      }
      UpDone(cur, n, index);
      assert data[1..n + 1] == cur[1..n + 1] && data[n + 1..] == cur[n + 1..];
    }

    /**
     * The bubble-down of remove over slots 1..size: swap the root's entry with its
     * smaller child while its key is larger.
     */
    method BubbleDown()
      requires 0 <= size < data.Length && DownInvariant(data[..], size, 1)
      modifies data
      ensures HeapOrdered(data[..], size)
      ensures multiset(data[1..size + 1]) == multiset(old(data[1..size + 1]))
      ensures data[size + 1..] == old(data[size + 1..])
    {
      var n := size;
      ghost var a0 := data[..];
      ghost var cur := a0;
      assert data[1..n + 1] == a0[1..n + 1] && data[n + 1..] == a0[n + 1..];
      var index := 1;
      var found := false;
      while !found && HasLeftChild(index, n)
        invariant data[..] == cur && |cur| == |a0|
        invariant 1 <= index
        invariant DownInvariant(cur, n, index)
        invariant found ==> LeftChild(index) <= n && cur[index].key <= cur[SmallerChild(cur, n, index)].key
        invariant multiset(cur[1..n + 1]) == multiset(a0[1..n + 1])
        invariant cur[n + 1..] == a0[n + 1..]
        decreases n - index, !found
      {
        var left := LeftChild(index);
        var right := RightChild(index);
        var child := left;
        if HasRightChild(index, n) && data[right].key < data[left].key {
          child := right;
        }
        assert child == SmallerChild(cur, n, index);
        assert data[index] == cur[index] && data[child] == cur[child];
        if data[index].key > data[child].key {
          DownSwap(cur, n, index);
          Swap(data, index, child);
          cur := Swapped(cur, index, child);
          index := child;
        } else {
          found := true;
        }
      }
      DownDone(cur, n, index);
      assert data[1..n + 1] == cur[1..n + 1] && data[n + 1..] == cur[n + 1..];
    }

    /**
     * add(key, value): doubles the array when slot size + 1 is its last; overwrites the
     * value of the slot holding key, or stores the entry in slot size + 1 and bubbles it up.
     */
    method Add(key: int, value: int)
      requires Valid()
      modifies this, data
      ensures Valid()
      ensures old(size) + 1 >= old(data.Length) ==> fresh(data) && data.Length == 2 * old(data.Length)
      ensures old(size) + 1 < old(data.Length) ==> data == old(data)
      ensures Find(old(Elements()), key).Some? ==>
        size == old(size) && Elements() == Overwrite(old(Elements()), key, value)
      ensures Find(old(Elements()), key).None? ==>
        && size == old(size) + 1
        && multiset(Elements()) == multiset(old(Elements())) + multiset{Entry(key, value)}
      ensures (forall e :: e in old(Elements()) ==> e.key < key) ==> Elements() == old(Elements()) + [Entry(key, value)]
      ensures Find(Elements(), key) == Some(value)
      ensures forall k :: k != key ==> Find(Elements(), k) == Find(old(Elements()), k)
    {
      if size + 1 >= data.Length {
        Grow();
      }
      Insert(key, value);
    }

    /** add once slot size + 1 lies below the array's end: overwrite the key's slot or append. */
    method Insert(key: int, value: int)
      requires Valid() && size + 1 < data.Length
      modifies this, data
      ensures Valid() && data == old(data)
      ensures Find(old(Elements()), key).Some? ==>
        size == old(size) && Elements() == Overwrite(old(Elements()), key, value)
      ensures Find(old(Elements()), key).None? ==>
        && size == old(size) + 1
        && multiset(Elements()) == multiset(old(Elements())) + multiset{Entry(key, value)}
      ensures (forall e :: e in old(Elements()) ==> e.key < key) ==> Elements() == old(Elements()) + [Entry(key, value)]
      ensures Find(Elements(), key) == Some(value)
      ensures forall k :: k != key ==> Find(Elements(), k) == Find(old(Elements()), k)
    {
      var i := FindSlot(key);
      if i > 0 {
        SetSlot(i, key, value);
        assert Entry(key, Find(old(Elements()), key).val) in old(Elements());
      } else {
        Append(key, value);
      }
    }

    /** add's overwrite of slot i, the first holding key. */
    method SetSlot(i: int, key: int, value: int)
      requires Valid() && 1 <= i <= size && data[i].key == key
      requires forall j :: 0 <= j < i - 1 ==> Elements()[j].key != key
      modifies data
      ensures Valid()
      ensures Find(old(Elements()), key).Some? && Elements() == Overwrite(old(Elements()), key, value)
      ensures Find(Elements(), key) == Some(value)
      ensures forall k :: k != key ==> Find(Elements(), k) == Find(old(Elements()), k)
    {
      ghost var s := Elements();
      ghost var a := data[..];
      ghost var n := size;
      assert s == a[1..n + 1];
      data[i] := Entry(key, value);
      Overwritten(a, s, n, i, key, value);
      ghost var fin := data[..];
      assert fin == a[i := Entry(key, value)];
      assert data[1..n + 1] == fin[1..n + 1];
    }

    /** add's new entry: stored in slot size + 1 and bubbled up. */
    method Append(key: int, value: int)
      requires Valid() && size + 1 < data.Length && Find(Elements(), key).None?
      modifies this, data
      ensures Valid() && size == old(size) + 1 && data == old(data)
      ensures multiset(Elements()) == multiset(old(Elements())) + multiset{Entry(key, value)}
      ensures (forall e :: e in old(Elements()) ==> e.key < key) ==> Elements() == old(Elements()) + [Entry(key, value)]
      ensures Find(Elements(), key) == Some(value)
      ensures forall k :: k != key ==> Find(Elements(), k) == Find(old(Elements()), k)
    {
      ghost var s := Elements();
      ghost var a := data[..];
      var n := size;
      assert s == a[1..n + 1];
      data[n + 1] := Entry(key, value);
      ghost var placed := data[..];
      assert placed == a[n + 1 := Entry(key, value)];
      StoredLast(a, n, Entry(key, value));
      BubbleUp(n + 1);
      size := n + 1;
      ghost var fin := data[..];
      assert Elements() == fin[1..n + 2];
      Appended(fin, placed, s, n + 1, key, value);
    }

    /**
     * The scan of add over slots 1..size for the key: its slot, the first holding it, or 0
     * when no slot does (an empty heap is not scanned).
     */
    method FindSlot(key: int) returns (i: int)
      requires Valid()
      ensures 0 <= i <= size
      ensures i == 0 <==> Find(Elements(), key).None?
      ensures i > 0 ==> data[i].key == key && forall j :: 0 <= j < i - 1 ==> Elements()[j].key != key
    {
      if size == 0 {
        return 0;
      }
      ghost var s := Elements();
      i := 1;
      while i <= size
        invariant 1 <= i <= size + 1
        invariant forall j :: 0 <= j < i - 1 ==> s[j].key != key
      {
        if data[i].key == key {
          assert s[i - 1] == data[i];
          return;
        }
        i := i + 1;
      }
      return 0;
    }

    /** put(key, value) is add(key, value). */
    method Put(key: int, value: int)
      requires Valid()
      modifies this, data
      ensures Valid()
      ensures Find(old(Elements()), key).Some? ==>
        size == old(size) && Elements() == Overwrite(old(Elements()), key, value)
      ensures Find(old(Elements()), key).None? ==>
        && size == old(size) + 1
        && multiset(Elements()) == multiset(old(Elements())) + multiset{Entry(key, value)}
      ensures Find(Elements(), key) == Some(value)
      ensures forall k :: k != key ==> Find(Elements(), k) == Find(old(Elements()), k)
    {
      Add(key, value);
    }

    /**
     * remove(): takes the root's key, the least one; the last slot's entry moves to the
     * root and bubbles down. An empty heap throws NoSuchElement from peek.
     */
    method RemoveMin() returns (r: Result<int>)
      requires Valid()
      modifies this, data
      ensures Valid() && data == old(data)
      ensures old(size) == 0 ==> r == Failure(NoSuchElement) && size == 0 && data[..] == old(data[..])
      ensures old(size) > 0 ==>
        && r == Success(old(data[1]).key)
        && size == old(size) - 1
        && multiset(Elements()) == multiset(old(Elements())) - multiset{old(data[1])}
        && (forall e :: e in old(Elements()) ==> r.value <= e.key)
        && data[old(size)..] == old(data[size..])
    {
      r := Peek();
      if r.Failure? {
        return;
      }
      ghost var a0 := data[..];
      ghost var s0 := Elements();
      var n := size;
      assert s0 == old(Elements()) && s0 == a0[1..n + 1] && a0[1] == old(data[1]);
      assert old(data[size..]) == a0[n..];
      assert forall e :: e in s0 ==> r.value <= e.key;
      data[1] := data[n];
      size := n - 1;
      ghost var mid := data[..];
      assert mid == a0[1 := a0[n]];
      assert data[1..n] == mid[1..n] && data[n..] == mid[n..];
      DownStart(a0, n);
      BubbleDown();
      ghost var fin := data[..];
      assert size == n - 1 && data[n..] == fin[n..];
      assert Elements() == fin[1..n];
      RemovedRoot(a0, fin, n);
    }
  
    /**
     * toString(): removes every entry into `nodes`, writing "key=value" for each, then
     * adds them all back. The text is modelled by the entries in the order written.
     */
    method ToString() returns (r: seq<Entry>)
      requires Valid()
      modifies this, data
      ensures Valid() && data == old(data) && size == old(size)
      ensures multiset(r) == multiset(old(Elements())) && StrictlyAscending(r)
      ensures Elements() == r
    {
      var nodes := new Entry[size](_ => Vacant);
      Drain(nodes);
      Refill(nodes);
      r := nodes[..];
    }

    /** The first loop of toString: remove the root into nodes[i] until the heap is empty. */
    method Drain(nodes: array<Entry>)
      requires Valid() && nodes.Length == size && nodes != data
      modifies this, data, nodes
      ensures Valid() && data == old(data) && size == 0
      ensures multiset(nodes[..]) == multiset(old(Elements())) && StrictlyAscending(nodes[..])
    {
      ghost var m0 := multiset(Elements());
      var i := 0;
      while size != 0 && i < nodes.Length
        invariant Valid() && data == old(data)
        invariant 0 <= i <= nodes.Length && size == nodes.Length - i
        invariant multiset(nodes[..i]) + multiset(Elements()) == m0
        invariant StrictlyAscending(nodes[..i])
        invariant i > 0 ==> forall e :: e in Elements() ==> nodes[i - 1].key < e.key
      {
        assert i > 0 ==> nodes[..i][i - 1] == nodes[i - 1];
        DrainOne(nodes, i, nodes[..i]);
        i := i + 1;
      }
      assert nodes[..i] == nodes[..];
    }

    /** One round of toString's first loop: nodes[i] takes the root, then remove() runs. */
    method DrainOne(nodes: array<Entry>, i: int, ghost p: seq<Entry>)
      requires Valid() && nodes != data && 0 <= i < nodes.Length && size > 0 && nodes[..i] == p
      requires StrictlyAscending(p) && (i > 0 ==> forall y :: y in Elements() ==> p[i - 1].key < y.key)
      modifies this, data, nodes
      ensures Valid() && data == old(data) && size == old(size) - 1
      ensures nodes[..i + 1] == p + [old(data[1])]
      ensures StrictlyAscending(nodes[..i + 1])
      ensures forall y :: y in Elements() ==> nodes[i].key < y.key
      ensures multiset(nodes[..i + 1]) + multiset(Elements()) == multiset(p) + multiset(old(Elements()))
    {
      ghost var e := Elements();
      var x := data[1];
      assert e[0] == x;
      nodes[i] := x;
      ghost var q := nodes[..i + 1];
      assert q == p + [x];
      assert Elements() == e;
      var _ := RemoveMin();
      DrainStep(p, x, e, Elements());
      assert nodes[..i + 1] == q && nodes[i] == x;
    }

    /** The second loop of toString: add the drained entries back in ascending key order. */
    method Refill(nodes: array<Entry>)
      requires Valid() && size == 0 && nodes.Length < data.Length && nodes != data
      requires StrictlyAscending(nodes[..])
      modifies this, data
      ensures Valid() && data == old(data) && Elements() == nodes[..]
    {
      var j := 0;
      while j < nodes.Length
        invariant Valid() && data == old(data)
        invariant 0 <= j <= nodes.Length && size == j
        invariant Elements() == nodes[..j]
      {
        RefillOne(nodes, j);
        j := j + 1;
      }
      assert nodes[..j] == nodes[..];
    }

    /** One round of toString's second loop: add(nodes[j]) appends above every key stored. */
    method RefillOne(nodes: array<Entry>, j: int)
      requires Valid() && nodes.Length < data.Length && nodes != data
      requires StrictlyAscending(nodes[..]) && 0 <= j < nodes.Length && size == j && Elements() == nodes[..j]
      modifies this, data
      ensures Valid() && data == old(data) && size == j + 1 && Elements() == nodes[..j + 1]
    {
      ghost var s := nodes[..];
      assert forall e :: e in s[..j] ==> e.key < s[j].key;
      var x := nodes[j];
      assert x == s[j] && s[..j + 1] == s[..j] + [x];
      Add(x.key, x.value);
    }

    /**
     * PrintMostFrequent(n): an empty heap throws; otherwise slot n-1 of an n-slot buffer
     * takes the root and slots size-1 down to 1 are offered in turn, and the populated
     * slots are printed.
     */
    method PrintMostFrequent(n: int) returns (r: Result<seq<Entry>>)
      requires Valid()
      ensures size == 0 ==> r == Failure(NoSuchElement)
      ensures size > 0 && n < 0 ==> r == Failure(NegativeArraySize)
      ensures size > 0 && n == 0 ==> r == Failure(IndexOutOfBounds)
      ensures size > 0 && n >= 1 ==> r == Success(MostFrequentAsWritten(Elements(), n))
    {
      if size == 0 {
        return Failure(NoSuchElement);
      }
      if n < 0 {
        return Failure(NegativeArraySize);
      }
      if n == 0 {
        return Failure(IndexOutOfBounds);
      }
      var nodes := SeedBuffer(n, data[1]);
      OfferDown(nodes, data, size - 1);
      assert data[1..size] == Elements()[..size - 1];
      r := Success(Values(nodes[..]));
    }

    /** The first slot of least frequency among slots 1..size. */
    method FindMinValue() returns (m: Entry)
      requires Valid() && size > 0
      ensures m == FirstMinimum(Elements()[0], Elements())
      ensures m in Elements() && forall e :: e in Elements() ==> m.value <= e.value
    {
      ghost var s := Elements();
      m := data[1];
      assert s[..0] == [];
      var i := 1;
      while i <= size
        invariant 1 <= i <= size + 1
        invariant m == FirstMinimum(s[0], s[..i - 1])
      {
        var x := data[i];
        assert x == s[i - 1] && s[..i] == s[..i - 1] + [x];
        FirstMinimumAppend(s[0], s[..i - 1], [x]);
        assert [x][1..] == [];
        if x.value < m.value {
          m := x;
        }
        i := i + 1;
      }
      assert s[..size] == s;
      FirstMinimumOfAll(s);
    }

    /**
     * PrintMostFrequent as evidently intended: the seed is the first entry of least
     * frequency and every slot from size down to 1 is offered, so the printed entries
     * are the top n of the heap.
     */
    method PrintMostFrequentFixed(n: int) returns (r: Result<seq<Entry>>)
      requires Valid()
      ensures size == 0 ==> r == Failure(NoSuchElement)
      ensures size > 0 && n < 0 ==> r == Failure(NegativeArraySize)
      ensures size > 0 && n == 0 ==> r == Failure(IndexOutOfBounds)
      ensures size > 0 && n >= 1 ==> (r.Success? &&
        var m := FirstMinimum(Elements()[0], Elements());
        r.value == MostFrequentFixed(Elements(), n) && TopOf(r.value, n, multiset{m} + multiset(Elements())))
    {
      if size == 0 {
        return Failure(NoSuchElement);
      }
      if n < 0 {
        return Failure(NegativeArraySize);
      }
      if n == 0 {
        return Failure(IndexOutOfBounds);
      }
      var m := FindMinValue();
      var nodes := SeedBuffer(n, m);
      OfferDown(nodes, data, size);
      r := Success(Values(nodes[..]));
      MostFrequentFixedIsTop(Elements(), n);
    }
  }
}
