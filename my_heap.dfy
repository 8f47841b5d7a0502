/**
 * my_heap: a first-fit allocator over one pool of memory. The pool is a doubly linked
 * list of blocks (start address, size, free flag) from `head` to `tail`; my_malloc
 * takes the first free block large enough, splitting it when it is larger than the
 * request, and my_free marks a block free and merges every run of adjacent free blocks.
 * The list is modelled as the sequence of its blocks from head to tail, so `head` is
 * the first element and `tail` the last, and a pool that was never created is the empty
 * sequence.
 */
module BlockPool {
  import opened Common

  /** One node of the block list: the address it starts at, its size in bytes, and whether it is free. */
  datatype Block = Block(start: int, size: int, free: bool)

  /** What my_malloc leaves: the new block list and the address returned, None for NULL. */
  datatype Allocation = Allocation(blocks: seq<Block>, address: Option<int>)

  // ---------------------------------------------------------------------------------
  // The shape of a block list
  // ---------------------------------------------------------------------------------

  /** The bytes covered by the blocks of `s`. */
  function SizeSum(s: seq<Block>): int
    decreases |s|
  {
    if s == [] then 0 else s[0].size + SizeSum(s[1..])
  }

  lemma {:induction false} SizeSumAppend(a: seq<Block>, b: seq<Block>)
    ensures SizeSum(a + b) == SizeSum(a) + SizeSum(b)
    decreases |a|
  {
    if a == [] {
      assert a + b == b;
    } else {
      assert (a + b)[1..] == a[1..] + b;
      SizeSumAppend(a[1..], b);
    }
  }

  /** Each block starts where the one before it ends. */
  ghost predicate Contiguous(s: seq<Block>)
  {
    forall i :: 0 <= i < |s| - 1 ==> s[i + 1].start == s[i].start + s[i].size
  }

  ghost predicate NonNegative(s: seq<Block>)
  {
    forall i :: 0 <= i < |s| ==> s[i].size >= 0
  }

  /**
   * The pool's invariant: at least one block, contiguous, of non-negative sizes summing
   * to total, and a pool of a single block has it free.
   */
  ghost predicate WellFormed(s: seq<Block>, total: int)
  {
    && |s| >= 1
    && Contiguous(s)
    && NonNegative(s)
    && SizeSum(s) == total
    && (|s| == 1 ==> s[0].free)
  }

  /** No two neighbouring blocks are both free: what combine leaves. */
  ghost predicate Coalesced(s: seq<Block>)
  {
    forall i :: 0 <= i < |s| - 1 ==> !(s[i].free && s[i + 1].free)
  }

  /** A block my_malloc may hand out for a request of `size` bytes. */
  predicate Fits(b: Block, size: int)
  {
    b.free && b.size >= size
  }

  // ---------------------------------------------------------------------------------
  // my_malloc
  // ---------------------------------------------------------------------------------

  /** The index of the first block that fits the request, or |s| when none does. */
  function FirstFit(s: seq<Block>, size: int): (r: nat)
    ensures r <= |s|
    ensures r < |s| ==> Fits(s[r], size)
    ensures forall j :: 0 <= j < r ==> !Fits(s[j], size)
    decreases |s|
  {
    if s == [] then 0
    else if Fits(s[0], size) then 0
    else 1 + FirstFit(s[1..], size)
  }

  /**
   * The case in which my_malloc dereferences NULL: the list has more than one block, the
   * request is within the total, and the first fitting block is the head and larger than
   * the request, so the split links the new block after head's NULL predecessor.
   */
  predicate SplitsHead(s: seq<Block>, total: int, size: int)
  {
    |s| >= 2 && total >= size && FirstFit(s, size) == 0 && s[0].size > size
  }

  /**
   * The list a block of `size` bytes taken from the low end of block i leaves: the taken
   * block, then the rest of block i still free.
   */
  function SplitAt(s: seq<Block>, i: int, size: int): (r: seq<Block>)
    requires 0 <= i < |s|
    ensures |r| == |s| + 1
  {
    s[..i] + [Block(s[i].start, size, false), Block(s[i].start + size, s[i].size - size, true)] + s[i + 1..]
  }

  /**
   * my_malloc(size) on the block list `s` of a pool of `total` bytes: NULL without a pool
   * or for a request above the total; a single block is always split, the taken part
   * first; otherwise the first fitting block is taken whole when its size is the request
   * and split when it is larger, and NULL when no block fits. At the head the split
   * makes the taken part the new head, which is what the code evidently intends there.
   */
  function Allocate(s: seq<Block>, total: int, size: int): (r: Allocation)
    ensures s == [] || total < size ==> r.address.None?
    ensures r.address.None? ==> r.blocks == s
    ensures r.address.Some? ==> exists i :: 0 <= i < |s| && s[i].start == r.address.val
  {
    if s == [] || total < size then Allocation(s, None)
    else if |s| == 1 then Allocation(SplitAt(s, 0, size), Some(s[0].start))
    else
      var i := FirstFit(s, size);
      if i == |s| then Allocation(s, None)
      else if s[i].size == size then Allocation(s[i := s[i].(free := false)], Some(s[i].start))
      else Allocation(SplitAt(s, i, size), Some(s[i].start))
  }

  /** Splitting a block keeps the list contiguous, non-negative and of the same total. */
  lemma {:induction false} SplitKeeps(s: seq<Block>, i: int, size: int)
    requires Contiguous(s) && NonNegative(s) && 0 <= i < |s| && 0 <= size <= s[i].size
    ensures var r := SplitAt(s, i, size);
      Contiguous(r) && NonNegative(r) && SizeSum(r) == SizeSum(s) && r[0].start == s[0].start
  {
    var a, b := Block(s[i].start, size, false), Block(s[i].start + size, s[i].size - size, true);
    var r := SplitAt(s, i, size);
    assert s == s[..i] + [s[i]] + s[i + 1..];
    SizeSumAppend(s[..i] + [s[i]], s[i + 1..]);
    SizeSumAppend(s[..i], [s[i]]);
    SizeSumAppend(s[..i] + [a, b], s[i + 1..]);
    SizeSumAppend(s[..i], [a, b]);
    assert SizeSum([s[i]]) == s[i].size;
    assert SizeSum([a, b]) == a.size + SizeSum([b]) by {
      assert [a, b][1..] == [b];
    }
    assert SizeSum([b]) == b.size;
    forall k | 0 <= k < |r| - 1
      ensures r[k + 1].start == r[k].start + r[k].size
    {
      if k < i - 1 {
        assert r[k] == s[k] && r[k + 1] == s[k + 1];
      } else if k == i - 1 {
        assert r[k] == s[k] && r[k + 1] == a;
      } else if k == i {
        assert r[k] == a && r[k + 1] == b;
      } else if k == i + 1 {
        assert r[k] == b && r[k + 1] == s[i + 1];
      } else {
        assert r[k] == s[k - 1] && r[k + 1] == s[k];
      }
    }
    forall k | 0 <= k < |r|
      ensures r[k].size >= 0
    {
      if k < i {
        assert r[k] == s[k];
      } else if k > i + 1 {
        assert r[k] == s[k - 1];
      }
    }
    if i > 0 {
      assert r[0] == s[0];
    }
  }

  /** Taking a block whole changes only its free flag. */
  lemma {:induction false} TakeKeeps(s: seq<Block>, i: int)
    requires Contiguous(s) && NonNegative(s) && 0 <= i < |s|
    ensures var r := s[i := s[i].(free := false)];
      Contiguous(r) && NonNegative(r) && SizeSum(r) == SizeSum(s) && r[0].start == s[0].start
    decreases |s|
  {
    var r := s[i := s[i].(free := false)];
    if i > 0 {
      assert r[1..] == s[1..][i - 1 := s[i].(free := false)];
      TakeKeeps(s[1..], i - 1);
    } else {
      assert r[1..] == s[1..];
    }
  }

  /** my_malloc keeps the pool's invariant and its first address, for any request of at least 0 bytes. */
  lemma {:induction false} AllocateKeeps(s: seq<Block>, total: int, size: int)
    requires WellFormed(s, total) && size >= 0
    ensures WellFormed(Allocate(s, total, size).blocks, total)
    ensures Allocate(s, total, size).blocks[0].start == s[0].start
  {
    if total >= size {
      if |s| == 1 {
        assert SizeSum(s) == s[0].size by {
          assert s[1..] == [];
        }
        SplitKeeps(s, 0, size);
      } else {
        var i := FirstFit(s, size);
        if i < |s| {
          if s[i].size == size {
            TakeKeeps(s, i);
          } else {
            SplitKeeps(s, i, size);
          }
        }
      }
    }
  }

  /**
   * my_malloc returns NULL exactly when the request exceeds the total or when no free
   * block is large enough.
   */
  lemma {:induction false} AllocateFails(s: seq<Block>, total: int, size: int)
    requires WellFormed(s, total)
    ensures Allocate(s, total, size).address.None? <==>
      total < size || forall j :: 0 <= j < |s| ==> !Fits(s[j], size)
  {
    if |s| == 1 && total >= size {
      assert SizeSum(s) == s[0].size by {
        assert s[1..] == [];
      }
      assert Fits(s[0], size);
    }
  }

  /**
   * First fit: a returned address is the start of the first free block of at least the
   * request's size. The blocks before it are unchanged; it becomes a taken block of the
   * request's size at the same address, followed, unless it was taken whole, by the free
   * rest of it. A block of a list of two or more is taken whole when its size is the
   * request; the block of a single-block pool is split even then, leaving a free block of
   * 0 bytes.
   */
  lemma {:induction false} AllocateFirstFit(s: seq<Block>, total: int, size: int)
    requires WellFormed(s, total) && Allocate(s, total, size).address.Some?
    ensures var r := Allocate(s, total, size);
      exists i :: 0 <= i < |s|
        && Fits(s[i], size) && (forall j :: 0 <= j < i ==> !Fits(s[j], size))
        && r.address == Some(s[i].start)
        && r.blocks[..i] == s[..i]
        && r.blocks[i] == Block(s[i].start, size, false)
        && (if |s| >= 2 && s[i].size == size then r.blocks[i + 1..] == s[i + 1..]
            else r.blocks[i + 1] == Block(s[i].start + size, s[i].size - size, true) && r.blocks[i + 2..] == s[i + 1..])
  {
    var r := Allocate(s, total, size);
    if |s| == 1 {
      assert SizeSum(s) == s[0].size by {
        assert s[1..] == [];
      }
      assert r.blocks[2..] == s[1..];
      assert Fits(s[0], size);
    } else {
      var i := FirstFit(s, size);
      if s[i].size == size {
        assert r.blocks[..i] == s[..i] && r.blocks[i + 1..] == s[i + 1..];
      } else {
        assert r.blocks[..i] == s[..i] && r.blocks[i + 2..] == s[i + 1..];
      }
    }
  }

  // ---------------------------------------------------------------------------------
  // combine and my_free
  // ---------------------------------------------------------------------------------

  /**
   * combine's result: every maximal run of neighbouring free blocks becomes one free block
   * at the run's first address whose size is the run's total. Written as a fold from the
   * tail: a free block absorbs the free block that starts the combined rest.
   */
  function Coalesce(s: seq<Block>): (r: seq<Block>)
    ensures |r| <= |s|
    ensures s != [] ==> r != [] && r[0].start == s[0].start && r[0].free == s[0].free
    decreases |s|
  {
    if |s| <= 1 then s
    else
      var t := Coalesce(s[1..]);
      if s[0].free && t[0].free then [Block(s[0].start, s[0].size + t[0].size, true)] + t[1..]
      else [s[0]] + t
  }

  /** The blocks after the first keep the shape of a list. */
  lemma {:induction false} ShapeTail(s: seq<Block>)
    requires s != []
    ensures Contiguous(s) ==> Contiguous(s[1..])
    ensures NonNegative(s) ==> NonNegative(s[1..])
  {
    assert forall k :: 0 <= k < |s| - 1 ==> s[1..][k] == s[k + 1];
  }

  /** A block in front of a list that starts where the block ends. */
  lemma {:induction false} ShapeCons(x: Block, t: seq<Block>)
    requires Contiguous(t) && (t != [] ==> t[0].start == x.start + x.size)
    requires NonNegative(t) && x.size >= 0
    ensures Contiguous([x] + t) && NonNegative([x] + t)
  {
    assert forall k :: 0 < k <= |t| ==> ([x] + t)[k] == t[k - 1];
  }

  lemma {:induction false} SizeSumCons(x: Block, t: seq<Block>)
    ensures SizeSum([x] + t) == x.size + SizeSum(t)
  {
    assert ([x] + t)[1..] == t;
  }

  /** Combining keeps the total. */
  lemma {:induction false} CoalesceSum(s: seq<Block>)
    ensures SizeSum(Coalesce(s)) == SizeSum(s)
    decreases |s|
  {
    if |s| >= 2 {
      var t := Coalesce(s[1..]);
      CoalesceSum(s[1..]);
      assert t == [t[0]] + t[1..];
      SizeSumCons(t[0], t[1..]);
      if s[0].free && t[0].free {
        SizeSumCons(Block(s[0].start, s[0].size + t[0].size, true), t[1..]);
      } else {
        SizeSumCons(s[0], t);
      }
    }
  }

  /** Combining keeps a list contiguous and of non-negative sizes. */
  lemma {:induction false} CoalesceShape(s: seq<Block>)
    requires Contiguous(s) && NonNegative(s)
    ensures Contiguous(Coalesce(s)) && NonNegative(Coalesce(s))
    decreases |s|
  {
    if |s| >= 2 {
      var t := Coalesce(s[1..]);
      ShapeTail(s);
      CoalesceShape(s[1..]);
      assert s[1].start == s[0].start + s[0].size && s[0].size >= 0;
      if s[0].free && t[0].free {
        ShapeTail(t);
        assert t[0].size >= 0;
        assert t[1..] != [] ==> t[1..][0] == t[1] && t[1].start == t[0].start + t[0].size;
        ShapeCons(Block(s[0].start, s[0].size + t[0].size, true), t[1..]);
      } else {
        ShapeCons(s[0], t);
      }
    }
  }

  /** Combining keeps the pool's invariant and its first address. */
  lemma {:induction false} CoalesceKeeps(s: seq<Block>, total: int)
    requires WellFormed(s, total)
    ensures WellFormed(Coalesce(s), total) && Coalesce(s)[0].start == s[0].start
  {
    CoalesceSum(s);
    CoalesceShape(s);
  }

  /** After combine no two neighbouring blocks are free. */
  lemma {:induction false} CoalesceCoalesced(s: seq<Block>)
    ensures Coalesced(Coalesce(s))
    decreases |s|
  {
    if |s| >= 2 {
      var t := Coalesce(s[1..]);
      CoalesceCoalesced(s[1..]);
      if s[0].free && t[0].free {
        var m := Block(s[0].start, s[0].size + t[0].size, true);
        forall k | 0 <= k < |t| - 1
          ensures !(([m] + t[1..])[k].free && ([m] + t[1..])[k + 1].free)
        {
          if k > 0 {
            assert ([m] + t[1..])[k] == t[k];
          }
        }
      } else {
        forall k | 0 <= k < |t|
          ensures !(([s[0]] + t)[k].free && ([s[0]] + t)[k + 1].free)
        {
          if k > 0 {
            assert ([s[0]] + t)[k] == t[k - 1];
          }
        }
      }
    }
  }

  /** combine changes nothing in a list with no two neighbouring free blocks. */
  lemma {:induction false} CoalesceIdempotent(s: seq<Block>)
    requires Coalesced(s)
    ensures Coalesce(s) == s
    decreases |s|
  {
    if |s| >= 2 {
      assert Coalesced(s[1..]) by {
        forall k | 0 <= k < |s[1..]| - 1
          ensures !(s[1..][k].free && s[1..][k + 1].free)
        {
          assert s[1..][k] == s[k + 1] && s[1..][k + 1] == s[k + 2];
        }
      }
      CoalesceIdempotent(s[1..]);
      assert !(s[0].free && s[1].free);
      assert [s[0]] + s[1..] == s;
    }
  }

  /** Block j of a list covers block b: the same free flag, and b's bytes inside j's. */
  ghost predicate Covers(r: seq<Block>, j: int, b: Block)
  {
    0 <= j < |r| && r[j].free == b.free && r[j].start <= b.start && b.start + b.size <= r[j].start + r[j].size
  }

  /** Each block lies within a block of the combined list that has the same free flag. */
  lemma {:induction false} CoalesceCovers(s: seq<Block>, i: int)
    requires Contiguous(s) && NonNegative(s) && 0 <= i < |s|
    ensures exists j :: Covers(Coalesce(s), j, s[i])
    decreases |s|
  {
    var r := Coalesce(s);
    if |s| == 1 {
      assert Covers(r, 0, s[i]);
    } else {
      var t := Coalesce(s[1..]);
      ShapeTail(s);
      CoalesceShape(s[1..]);
      assert s[1].start == s[0].start + s[0].size && s[0].size >= 0 && t[0].size >= 0;
      var merged := s[0].free && t[0].free;
      if i == 0 {
        assert Covers(r, 0, s[i]);
      } else {
        CoalesceCovers(s[1..], i - 1);
        assert s[1..][i - 1] == s[i];
        var j' :| Covers(t, j', s[i]);
        if merged && j' == 0 {
          assert Covers(r, 0, s[i]);
        } else if merged {
          assert r[j'] == t[j'];
          assert Covers(r, j', s[i]);
        } else {
          assert r[j' + 1] == t[j'];
          assert Covers(r, j' + 1, s[i]);
        }
      }
    }
  }

  /** A maximal run of n free blocks at the front combines into one free block at its address. */
  lemma {:induction false} CoalesceFreeHead(rest: seq<Block>, n: int)
    requires 1 <= n <= |rest| && (forall j :: 0 <= j < n ==> rest[j].free) && (n < |rest| ==> !rest[n].free)
    ensures Coalesce(rest) == [Block(rest[0].start, SizeSum(rest[..n]), true)] + Coalesce(rest[n..])
    decreases n
  {
    if n == 1 {
      assert rest[..1][1..] == [];
      if |rest| == 1 {
        assert rest[1..] == [];
      }
    } else {
      CoalesceFreeHead(rest[1..], n - 1);
      FreeHeadStep(rest, n);
    }
  }

  /** One step of the run: a free block before a run it was not yet merged with absorbs it. */
  lemma {:induction false} FreeHeadStep(rest: seq<Block>, n: int)
    requires 2 <= n <= |rest| && rest[0].free
    requires Coalesce(rest[1..]) == [Block(rest[1].start, SizeSum(rest[1..][..n - 1]), true)] + Coalesce(rest[1..][n - 1..])
    ensures Coalesce(rest) == [Block(rest[0].start, SizeSum(rest[..n]), true)] + Coalesce(rest[n..])
  {
    var t := rest[1..];
    var ct := Coalesce(t);
    assert t[n - 1..] == rest[n..];
    assert ct[0].free && ct[1..] == Coalesce(rest[n..]);
    assert Coalesce(rest) == [Block(rest[0].start, rest[0].size + ct[0].size, true)] + ct[1..];
    assert rest[..n][1..] == t[..n - 1];
    assert SizeSum(rest[..n]) == rest[0].size + SizeSum(t[..n - 1]);
  }

  /** A block that is not free at the front stays as it is. */
  lemma {:induction false} CoalesceTakenHead(rest: seq<Block>)
    requires rest != [] && !rest[0].free
    ensures Coalesce(rest) == [rest[0]] + Coalesce(rest[1..])
  {
    if |rest| == 1 {
      assert rest[1..] == [];
    }
  }

  /** The index of the first block starting at `address`, if any: the node my_free looks for. */
  function FindStart(s: seq<Block>, address: int): (r: Option<nat>)
    ensures r.Some? ==> r.val < |s| && s[r.val].start == address
    ensures r.Some? ==> forall j :: 0 <= j < r.val ==> s[j].start != address
    ensures r.None? <==> forall j :: 0 <= j < |s| ==> s[j].start != address
    decreases |s|
  {
    if s == [] then None
    else if s[0].start == address then Some(0)
    else match FindStart(s[1..], address)
      case None => None
      case Some(i) => Some(i + 1)
  }

  /**
   * my_free(address): the first block starting at the address is marked free and the list
   * combined; an address that starts no block, or a pool never created, changes nothing.
   */
  function Release(s: seq<Block>, address: int): (r: seq<Block>)
    ensures (forall j :: 0 <= j < |s| ==> s[j].start != address) ==> r == s
  {
    match FindStart(s, address)
    case None => s
    case Some(i) => Coalesce(s[i := s[i].(free := true)])
  }

  /**
   * After my_free of a block's start address the pool keeps its invariant, no two
   * neighbouring blocks are free, and the freed bytes lie within a free block.
   */
  lemma {:induction false} ReleaseFrees(s: seq<Block>, total: int, address: int)
    requires WellFormed(s, total) && FindStart(s, address).Some?
    ensures var r := Release(s, address);
      && WellFormed(r, total) && Coalesced(r) && r[0].start == s[0].start
      && var b := s[FindStart(s, address).val];
        exists j :: Covers(r, j, b.(free := true))
  {
    var i := FindStart(s, address).val;
    var u := s[i := s[i].(free := true)];
    assert Contiguous(u) && NonNegative(u);
    assert SizeSum(u) == SizeSum(s) by {
      TakeKeeps(u, i);
      assert u[i := u[i].(free := false)] == s[i := s[i].(free := false)];
      TakeKeeps(s, i);
    }
    CoalesceSum(u);
    CoalesceShape(u);
    CoalesceCoalesced(u);
    CoalesceCovers(u, i);
    assert u[i] == s[i].(free := true);
  }

  // ---------------------------------------------------------------------------------
  // The pool
  // ---------------------------------------------------------------------------------

  /**
   * freeup(beg, end): the nodes after beg up to end are released and their sizes summed,
   * walking back from end.
   */
  method FreeUp(s: seq<Block>, beg: int, end: int) returns (size: int)
    requires 0 <= beg <= end < |s|
    ensures size == SizeSum(s[beg + 1..end + 1])
  {
    size := 0;
    var e := end;
    assert s[e + 1..end + 1] == [];
    while e != beg
      invariant beg <= e <= end && size == SizeSum(s[e + 1..end + 1])
      decreases e
    {
      assert s[e..end + 1][1..] == s[e + 1..end + 1];
      size := size + s[e].size;
      e := e - 1;
    }
  }

  lemma {:induction false} AppendAssoc(a: seq<Block>, b: seq<Block>, c: seq<Block>)
    ensures a + (b + c) == (a + b) + c
  {
  }

  /** The slices of a list made of a prefix c and the rest after it. */
  lemma {:induction false} AppendParts(c: seq<Block>, rest: seq<Block>, n: int)
    requires 0 <= n <= |rest|
    ensures (c + rest)[..|c|] == c
    ensures (c + rest)[|c|..|c| + n] == rest[..n]
    ensures (c + rest)[|c| + n..] == rest[n..]
  {
  }

  /**
   * The body of combine for a free block at slot i, the blocks being c and then rest:
   * end walks on while it has a successor and is free; the nodes up to end (when end is
   * the free tail) or up to the one before end are released with freeup and their sizes
   * added to block i. The n blocks merged are the free run that starts rest.
   */
  method MergeRun(s: seq<Block>, i: int, ghost c: seq<Block>, ghost rest: seq<Block>) returns (r: seq<Block>, last: int)
    requires s == c + rest && i == |c| && i < |s| && s[i].free
    ensures var n := last - i + 1;
      && 1 <= n <= |rest| && (forall j :: 0 <= j < n ==> rest[j].free) && (n < |rest| ==> !rest[n].free)
      && r == (c + [Block(rest[0].start, SizeSum(rest[..n]), true)]) + rest[n..]
  {
    var e := i;
    while e + 1 < |s| && s[e].free
      invariant i <= e < |s| && forall j :: i <= j < e ==> s[j].free
    {
      e := e + 1;
    }
    last := if e + 1 == |s| && s[e].free then e else e - 1;
    ghost var n := last - i + 1;
    AppendParts(c, rest, n);
    assert s[..i] == c && s[i..last + 1] == rest[..n] && s[last + 1..] == rest[n..];
    forall j | 0 <= j < n
      ensures rest[j].free
    {
      assert rest[j] == s[i..last + 1][j] == s[i + j];
    }
    assert n < |rest| ==> rest[n] == s[last + 1..][0] == s[last + 1];
    assert rest[0] == s[i..last + 1][0] == s[i];
    SizeSumCons(s[i], s[i + 1..last + 1]);
    assert s[i..last + 1] == [s[i]] + s[i + 1..last + 1];
    if e != i {
      var size := FreeUp(s, i, last);
      r := s[..i] + [Block(s[i].start, s[i].size + size, true)] + s[last + 1..];
    } else {
      assert s[i + 1..last + 1] == [];
      assert s == s[..i] + [Block(s[i].start, s[i].size, true)] + s[i + 1..];
      r := s;
    }
  }

  /** The walk of combine from head: each run of neighbouring free blocks merged into its first block. */
  method CombineList(s0: seq<Block>) returns (s: seq<Block>)
    ensures s == Coalesce(s0)
  {
    s := s0;
    ghost var done, rest := [], s0;
    var i := 0;
    assert s == [] + s;
    while i < |s|
      invariant s == done + rest && i == |done| && Coalesce(s0) == done + Coalesce(rest)
      decreases |rest|
    {
      AppendParts(done, rest, 0);
      assert s[i] == rest[0];
      if s[i].free {
        var r, last := MergeRun(s, i, done, rest);
        ghost var n := last - i + 1;
        ghost var b := Block(rest[0].start, SizeSum(rest[..n]), true);
        CoalesceFreeHead(rest, n);
        AppendAssoc(done, [b], Coalesce(rest[n..]));
        s, done, rest := r, done + [b], rest[n..];
      } else {
        CoalesceTakenHead(rest);
        AppendAssoc(done, [rest[0]], Coalesce(rest[1..]));
        AppendAssoc(done, [rest[0]], rest[1..]);
        assert rest == [rest[0]] + rest[1..];
        done, rest := done + [rest[0]], rest[1..];
      }
      i := i + 1;
    }
    assert rest == [] && done + [] == done;
  }

  /** The global head/tail list and total of my_heap.c. */
  class Pool {
    /** The blocks from head to tail; empty while head is NULL. */
    var blocks: seq<Block>
    var total: int

    /** The static state before create_pool: head NULL and total 0. */
    constructor()
      ensures blocks == [] && total == 0
    {
      blocks := [];
      total := 0;
    }

    /**
     * create_pool(size): one free block of all `size` bytes at `base`, the address the
     * system allocator returned for the pool; head and tail are that block.
     */
    method CreatePool(size: int, base: int)
      modifies this
      ensures blocks == [Block(base, size, true)] && total == size
      ensures size >= 0 ==> WellFormed(blocks, total)
    {
      total := size;
      blocks := [Block(base, size, true)];
      assert blocks[1..] == [];
    }

    /** my_malloc(size): the block list and the address Allocate describes. */
    method Malloc(size: int) returns (r: Option<int>)
      requires !SplitsHead(blocks, total, size)
      modifies this
      ensures Allocation(blocks, r) == Allocate(old(blocks), old(total), size)
      ensures total == old(total)
    {
      if blocks == [] {
        return None;
      }
      if total < size {
        return None;
      }
      var s := blocks;
      if |s| == 1 {
        blocks := [Block(s[0].start, size, false), Block(s[0].start + size, s[0].size - size, true)];
        return Some(s[0].start);
      }
      var i := 0;
      while i < |s|
        invariant 0 <= i <= |s| && blocks == s
        invariant forall j :: 0 <= j < i ==> !Fits(s[j], size)
      {
        if s[i].free {
          if s[i].size == size {
            blocks := s[i := s[i].(free := false)];
            return Some(s[i].start);
          } else if s[i].size > size {
            blocks := s[..i] + [Block(s[i].start, size, false), Block(s[i].start + size, s[i].size - size, true)] + s[i + 1..];
            return Some(s[i].start);
          }
        }
        i := i + 1;
      }
      return None;
    }

    /** combine(): each run of neighbouring free blocks merged into its first block. */
    method Combine()
      modifies this
      ensures blocks == Coalesce(old(blocks)) && total == old(total)
    {
      blocks := CombineList(blocks);
    }

    /** my_free(address): the first block starting at the address is freed and the list combined. */
    method Free(address: int)
      modifies this
      ensures blocks == Release(old(blocks), address) && total == old(total)
    {
      if blocks == [] {
        return;
      }
      var s := blocks;
      var i := 0;
      while i < |s|
        invariant 0 <= i <= |s| && forall j :: 0 <= j < i ==> s[j].start != address
      {
        if s[i].start == address {
          blocks := s[i := s[i].(free := true)];
          Combine();
          return;
        }
        i := i + 1;
      }
    }

    /**
     * destroy_pool(): the nodes are released from the tail back to the head, then the head
     * and the pool itself, and total becomes 0; without a pool nothing happens. `released`
     * counts the node records freed.
     */
    method DestroyPool() returns (released: nat)
      modifies this
      ensures blocks == []
      ensures total == if old(blocks) == [] then old(total) else 0
      ensures released == |old(blocks)|
    {
      if blocks == [] {
        return 0;
      }
      released := 0;
      while |blocks| > 1
        invariant 1 <= |blocks| <= |old(blocks)|
        invariant blocks == old(blocks)[..|blocks|]
        invariant released == |old(blocks)| - |blocks|
        decreases |blocks|
      {
        blocks := blocks[..|blocks| - 1];
        released := released + 1;
      }
      blocks := [];
      released := released + 1;
      total := 0;
    }
  }

  // ---------------------------------------------------------------------------------
  // The scenarios of mallok_test.c
  // ---------------------------------------------------------------------------------

  /** What a run of my_malloc calls leaves: the final list and each call's result. */
  datatype Allocations = Allocations(blocks: seq<Block>, addresses: seq<Option<int>>)

  /** my_malloc called with each of `sizes` in turn. */
  function AllocateEach(s: seq<Block>, total: int, sizes: seq<int>): (r: Allocations)
    ensures |r.addresses| == |sizes|
    decreases |sizes|
  {
    if sizes == [] then Allocations(s, [])
    else
      var a := Allocate(s, total, sizes[0]);
      var rest := AllocateEach(a.blocks, total, sizes[1..]);
      Allocations(rest.blocks, [a.address] + rest.addresses)
  }

  /** my_free called with each of `addresses` in turn. */
  function ReleaseEach(s: seq<Block>, addresses: seq<int>): seq<Block>
    decreases |addresses|
  {
    if addresses == [] then s else ReleaseEach(Release(s, addresses[0]), addresses[1..])
  }

  /** The pool of create_pool(1000) at address b. */
  function Fresh(b: int): seq<Block>
  {
    [Block(b, 1000, true)]
  }

  /** The pool of Fresh(b) after five requests of 200 bytes. */
  function FiveTaken(b: int): seq<Block>
  {
    [Block(b, 200, false), Block(b + 200, 200, false), Block(b + 400, 200, false),
     Block(b + 600, 200, false), Block(b + 800, 200, false)]
  }

  /** Two free blocks at the front of a list coalesced after them merge into one. */
  lemma {:induction false} MergeTwo(u: seq<Block>, r: seq<Block>)
    requires |u| >= 3 && u[0].free && u[1].free && !u[2].free && Coalesced(u[2..])
    requires r == [Block(u[0].start, u[0].size + u[1].size, true)] + u[2..]
    ensures Coalesce(u) == r
  {
    CoalesceFreeHead(u, 2);
    assert u[..2] == [u[0], u[1]] && [u[0], u[1]][1..] == [u[1]] && [u[1]][1..] == [];
    CoalesceIdempotent(u[2..]);
  }

  /** A request split from block i, the first that fits, of a list of two or more blocks. */
  lemma {:induction false} AllocateSplitsAt(s: seq<Block>, total: int, size: int, i: int)
    requires |s| >= 2 && total >= size && 0 <= i < |s| && Fits(s[i], size) && s[i].size > size
    requires forall j :: 0 <= j < i ==> !Fits(s[j], size)
    ensures Allocate(s, total, size) == Allocation(SplitAt(s, i, size), Some(s[i].start))
  {
    assert FirstFit(s, size) == i;
  }

  /** A request taking the whole of block i, the first that fits, of a list of two or more blocks. */
  lemma {:induction false} AllocateTakesAt(s: seq<Block>, total: int, size: int, i: int)
    requires |s| >= 2 && total >= size && 0 <= i < |s| && Fits(s[i], size) && s[i].size == size
    requires forall j :: 0 <= j < i ==> !Fits(s[j], size)
    ensures Allocate(s, total, size) == Allocation(s[i := s[i].(free := false)], Some(s[i].start))
  {
    assert FirstFit(s, size) == i;
  }

  /** The four pools of test_two's first round after one to four requests of 200 bytes. */
  function Requested(b: int, k: int): seq<Block>
    requires 1 <= k <= 4
  {
    var t := false;
    if k == 1 then [Block(b, 200, t), Block(b + 200, 800, true)]
    else if k == 2 then [Block(b, 200, t), Block(b + 200, 200, t), Block(b + 400, 600, true)]
    else if k == 3 then [Block(b, 200, t), Block(b + 200, 200, t), Block(b + 400, 200, t), Block(b + 600, 400, true)]
    else [Block(b, 200, t), Block(b + 200, 200, t), Block(b + 400, 200, t), Block(b + 600, 200, t),
          Block(b + 800, 200, true)]
  }

  /** Each of the five requests of 200 bytes takes the next 200 bytes of the pool. */
  lemma {:induction false} RequestSteps(b: int)
    ensures Allocate(Fresh(b), 1000, 200) == Allocation(Requested(b, 1), Some(b))
    ensures Allocate(Requested(b, 1), 1000, 200) == Allocation(Requested(b, 2), Some(b + 200))
    ensures Allocate(Requested(b, 2), 1000, 200) == Allocation(Requested(b, 3), Some(b + 400))
    ensures Allocate(Requested(b, 3), 1000, 200) == Allocation(Requested(b, 4), Some(b + 600))
    ensures Allocate(Requested(b, 4), 1000, 200) == Allocation(FiveTaken(b), Some(b + 800))
  {
    assert SplitAt(Fresh(b), 0, 200) == Requested(b, 1);
    AllocateSplitsAt(Requested(b, 1), 1000, 200, 1);
    assert SplitAt(Requested(b, 1), 1, 200) == Requested(b, 2);
    AllocateSplitsAt(Requested(b, 2), 1000, 200, 2);
    assert SplitAt(Requested(b, 2), 2, 200) == Requested(b, 3);
    AllocateSplitsAt(Requested(b, 3), 1000, 200, 3);
    assert SplitAt(Requested(b, 3), 3, 200) == Requested(b, 4);
    var s4 := Requested(b, 4);
    AllocateTakesAt(s4, 1000, 200, 4);
    assert s4[4 := s4[4].(free := false)] == FiveTaken(b);
  }

  /** test_two and test_three: five requests of 200 bytes from a fresh pool of 1000 get consecutive addresses. */
  lemma {:induction false} FiveRequests(b: int)
    ensures AllocateEach(Fresh(b), 1000, [200, 200, 200, 200, 200])
      == Allocations(FiveTaken(b), [Some(b), Some(b + 200), Some(b + 400), Some(b + 600), Some(b + 800)])
  {
    RequestSteps(b);
    var x := 200;
    var z := [x, x, x, x, x];
    assert z[1..] == [x, x, x, x] && z[1..][1..] == [x, x, x] && z[1..][1..][1..] == [x, x];
    assert [x, x][1..] == [x] && [x][1..] == [];
    assert AllocateEach(Requested(b, 4), 1000, [x]) == Allocations(FiveTaken(b), [Some(b + 800)]);
    assert AllocateEach(Requested(b, 3), 1000, [x, x])
      == Allocations(FiveTaken(b), [Some(b + 600), Some(b + 800)]);
    assert AllocateEach(Requested(b, 2), 1000, [x, x, x])
      == Allocations(FiveTaken(b), [Some(b + 400), Some(b + 600), Some(b + 800)]);
    assert AllocateEach(Requested(b, 1), 1000, [x, x, x, x])
      == Allocations(FiveTaken(b), [Some(b + 200), Some(b + 400), Some(b + 600), Some(b + 800)]);
  }

  /**
   * Freeing the taken second block of a list whose first block is free and whose third
   * is taken: the two merge and the rest stays, when it has no two free neighbours.
   */
  lemma {:induction false} ReleaseSecond(s: seq<Block>, address: int, r: seq<Block>)
    requires |s| >= 3 && s[0].free && s[0].start != address && s[1].start == address && !s[2].free
    requires Coalesced(s[2..]) && r == [Block(s[0].start, s[0].size + s[1].size, true)] + s[2..]
    ensures Release(s, address) == r
  {
    assert FindStart(s, address) == Some(1);
    var u := s[1 := s[1].(free := true)];
    assert u[2..] == s[2..];
    MergeTwo(u, r);
  }

  /** The four pools of test_two's first round after freeing one to four of its blocks. */
  function Freed(b: int, k: int): seq<Block>
    requires 1 <= k <= 4
  {
    var t := false;
    if k == 1 then [Block(b, 200, true), Block(b + 200, 200, t), Block(b + 400, 200, t), Block(b + 600, 200, t),
                    Block(b + 800, 200, t)]
    else if k == 2 then [Block(b, 400, true), Block(b + 400, 200, t), Block(b + 600, 200, t), Block(b + 800, 200, t)]
    else if k == 3 then [Block(b, 600, true), Block(b + 600, 200, t), Block(b + 800, 200, t)]
    else [Block(b, 800, true), Block(b + 800, 200, t)]
  }

  /** test_two's first free: the first block becomes free and nothing merges. */
  lemma {:induction false} FreeFirstOfFive(b: int)
    ensures Release(FiveTaken(b), b) == Freed(b, 1)
  {
    var s5 := FiveTaken(b);
    assert FindStart(s5, b) == Some(0);
    assert s5[0 := s5[0].(free := true)] == Freed(b, 1);
    CoalesceIdempotent(Freed(b, 1));
  }

  /** test_two's second to fourth frees each merge the freed block into the free run before it. */
  lemma {:induction false} FreeSteps(b: int)
    ensures Release(Freed(b, 1), b + 200) == Freed(b, 2)
    ensures Release(Freed(b, 2), b + 400) == Freed(b, 3)
    ensures Release(Freed(b, 3), b + 600) == Freed(b, 4)
  {
    ReleaseSecond(Freed(b, 1), b + 200, Freed(b, 2));
    ReleaseSecond(Freed(b, 2), b + 400, Freed(b, 3));
    ReleaseSecond(Freed(b, 3), b + 600, Freed(b, 4));
  }

  /** test_two's last free: the freed block merges with the free run before it. */
  lemma {:induction false} FreeLastOfFive(b: int)
    ensures Release(Freed(b, 4), b + 800) == Fresh(b)
  {
    var r4 := Freed(b, 4);
    assert FindStart(r4, b + 800) == Some(1);
    var u := [Block(b, 800, true), Block(b + 800, 200, true)];
    assert r4[1 := r4[1].(free := true)] == u;
    var v := [Block(b + 800, 200, true)];
    assert u[1..] == v && v[1..] == [];
    assert SizeSum(v) == 200;
    assert SizeSum(u) == 1000;
    assert Coalesce(v) == v;
  }

  /**
   * test_two: freeing the five blocks in order returns the pool to its fresh state, so the
   * round of five requests and five frees can be repeated as often as wanted.
   */
  lemma {:induction false} FreeAllRestores(b: int)
    ensures ReleaseEach(FiveTaken(b), [b, b + 200, b + 400, b + 600, b + 800]) == Fresh(b)
  {
    FreeFirstOfFive(b);
    FreeSteps(b);
    FreeLastOfFive(b);
    var a := [b, b + 200, b + 400, b + 600, b + 800];
    assert ReleaseEach(Freed(b, 4), a[4..]) == Fresh(b) by {
      assert a[4..] == [b + 800] && a[4..][1..] == [];
    }
    assert ReleaseEach(Freed(b, 3), a[3..]) == Fresh(b) by {
      assert a[3..][0] == b + 600 && a[3..][1..] == a[4..];
    }
    assert ReleaseEach(Freed(b, 2), a[2..]) == Fresh(b) by {
      assert a[2..][0] == b + 400 && a[2..][1..] == a[3..];
    }
    assert ReleaseEach(Freed(b, 1), a[1..]) == Fresh(b) by {
      assert a[1..][0] == b + 200 && a[1..][1..] == a[2..];
    }
  }

  /** A request no block fits, on a list of two or more blocks, changes nothing. */
  lemma {:induction false} AllocateNoFit(s: seq<Block>, total: int, size: int)
    requires |s| >= 2 && forall j :: 0 <= j < |s| ==> !Fits(s[j], size)
    ensures Allocate(s, total, size) == Allocation(s, None)
  {
    if total >= size {
      assert FirstFit(s, size) == |s|;
    }
  }

  /** The pools of test_three: the middle block freed, then 150 bytes of it taken, then the other 50. */
  function MiddleFreed(b: int, k: int): seq<Block>
    requires 0 <= k <= 2
  {
    var t := false;
    if k == 0 then [Block(b, 200, t), Block(b + 200, 200, t), Block(b + 400, 200, true), Block(b + 600, 200, t),
                    Block(b + 800, 200, t)]
    else if k == 1 then [Block(b, 200, t), Block(b + 200, 200, t), Block(b + 400, 150, t), Block(b + 550, 50, true),
                         Block(b + 600, 200, t), Block(b + 800, 200, t)]
    else [Block(b, 200, t), Block(b + 200, 200, t), Block(b + 400, 150, t), Block(b + 550, 50, t),
          Block(b + 600, 200, t), Block(b + 800, 200, t)]
  }

  /**
   * test_three: freeing the middle of five 200-byte blocks frees it alone, and a request of
   * 210 bytes then fails.
   */
  lemma {:induction false} FreeMiddleBlock(b: int)
    ensures Release(FiveTaken(b), b + 400) == MiddleFreed(b, 0)
    ensures Allocate(MiddleFreed(b, 0), 1000, 210) == Allocation(MiddleFreed(b, 0), None)
  {
    var s5 := FiveTaken(b);
    assert FindStart(s5, b + 400) == Some(2);
    assert s5[2 := s5[2].(free := true)] == MiddleFreed(b, 0);
    CoalesceIdempotent(MiddleFreed(b, 0));
    AllocateNoFit(MiddleFreed(b, 0), 1000, 210);
  }

  /**
   * test_three, continued: a request of 150 bytes gets the freed block's address, one of 60
   * then fails and one of 50 gets the remaining 50 bytes.
   */
  lemma {:induction false} RefillMiddleBlock(b: int)
    ensures Allocate(MiddleFreed(b, 0), 1000, 150) == Allocation(MiddleFreed(b, 1), Some(b + 400))
    ensures Allocate(MiddleFreed(b, 1), 1000, 60) == Allocation(MiddleFreed(b, 1), None)
    ensures Allocate(MiddleFreed(b, 1), 1000, 50) == Allocation(MiddleFreed(b, 2), Some(b + 550))
  {
    AllocateSplitsAt(MiddleFreed(b, 0), 1000, 150, 2);
    assert SplitAt(MiddleFreed(b, 0), 2, 150) == MiddleFreed(b, 1);
    AllocateNoFit(MiddleFreed(b, 1), 1000, 60);
    var m1 := MiddleFreed(b, 1);
    AllocateTakesAt(m1, 1000, 50, 3);
    assert m1[3 := m1[3].(free := false)] == MiddleFreed(b, 2);
  }

  /**
   * The head split is reachable: after create_pool(1000), two requests of 200 bytes and
   * freeing the first, a request of 100 bytes splits the head block, where my_malloc
   * follows the head's NULL predecessor.
   */
  lemma {:induction false} HeadSplitReachable(b: int)
    ensures AllocateEach(Fresh(b), 1000, [200, 200]).blocks == Requested(b, 2)
    ensures Release(Requested(b, 2), b) == [Block(b, 200, true), Block(b + 200, 200, false), Block(b + 400, 600, true)]
    ensures SplitsHead(Release(Requested(b, 2), b), 1000, 100)
  {
    RequestSteps(b);
    var x := 200;
    assert [x, x][1..] == [x] && [x][1..] == [];
    var p := Requested(b, 2);
    assert FindStart(p, b) == Some(0);
    var q := [Block(b, 200, true), Block(b + 200, 200, false), Block(b + 400, 600, true)];
    assert p[0 := p[0].(free := true)] == q;
    CoalesceIdempotent(q);
  }
}
