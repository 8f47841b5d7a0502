/**
 * The top-n selection every container repeats in its PrintMostFrequent: a buffer of n
 * slots that fills from the right and keeps its populated slots in non-decreasing order
 * of value. Slot n-1 is seeded with a minimum entry; every visited entry then scans the
 * buffer from slot n-1 downwards and is placed at the first populated slot whose value
 * it reaches, after the slots below have been shifted one place to the left (the lowest
 * one falls out). The Java code keeps parallel key and value arrays moved together; here
 * one slot holds the pair.
 */
module TopFrequent {
  import opened Common

  type Buffer = seq<Option<Entry>>

  /** The entries of the populated slots, from slot 0 upwards. */
  function Values(b: Buffer): (r: seq<Entry>)
    ensures |r| <= |b|
  {
    if b == [] then [] else (if b[0].Some? then [b[0].val] else []) + Values(b[1..])
  }

  lemma {:induction false} ValuesAppend(a: Buffer, b: Buffer)
    ensures Values(a + b) == Values(a) + Values(b)
  {
    if a == [] {
      assert a + b == b;
    } else {
      var head := if a[0].Some? then [a[0].val] else [];
      assert (a + b)[0] == a[0] && (a + b)[1..] == a[1..] + b;
      assert Values(a + b) == head + Values(a[1..] + b);
      ValuesAppend(a[1..], b);
      assert Values(a) == head + Values(a[1..]);
    }
  }

  lemma {:induction false} ValuesEmpty(b: Buffer)
    requires forall i :: 0 <= i < |b| ==> b[i].None?
    ensures Values(b) == []
  {
    if b != [] {
      ValuesEmpty(b[1..]);
    }
  }

  /** Every populated slot contributes its entry, and only populated slots do. */
  lemma {:induction false} ValuesMembers(b: Buffer)
    ensures forall i :: 0 <= i < |b| && b[i].Some? ==> b[i].val in Values(b)
    ensures forall x :: x in Values(b) ==> exists i :: 0 <= i < |b| && b[i] == Some(x)
  {
    if b != [] {
      ValuesMembers(b[1..]);
      forall x | x in Values(b)
        ensures exists i :: 0 <= i < |b| && b[i] == Some(x)
      {
        if !(b[0].Some? && x == b[0].val) {
          var i :| 0 <= i < |b[1..]| && b[1..][i] == Some(x);
          assert b[i + 1] == Some(x);
        }
      }
    }
  }

  /** A fully populated buffer contributes one entry per slot. */
  lemma {:induction false} ValuesFull(b: Buffer)
    requires forall i :: 0 <= i < |b| ==> b[i].Some?
    ensures |Values(b)| == |b|
  {
    if b != [] {
      ValuesFull(b[1..]);
    }
  }

  /**
   * The shape PrintMostFrequent keeps: the populated slots form a suffix of the buffer
   * and their values never decrease towards slot n-1.
   */
  ghost predicate WellFormed(b: Buffer)
  {
    && (forall i, j :: 0 <= i <= j < |b| && b[i].Some? ==> b[j].Some?)
    && (forall i, j :: 0 <= i <= j < |b| && b[i].Some? ==> b[i].val.value <= b[j].val.value)
  }

  /** The buffer PrintMostFrequent starts from: n-1 free slots and the seed in slot n-1. */
  function Seed(n: int, m: Entry): (r: Buffer)
    requires n >= 1
    ensures |r| == n && r[n - 1] == Some(m)
    ensures forall i :: 0 <= i < n - 1 ==> r[i].None?
  {
    seq(n - 1, _ => None) + [Some(m)]
  }

  lemma {:induction false} SeedShape(n: int, m: Entry)
    requires n >= 1
    ensures WellFormed(Seed(n, m)) && Values(Seed(n, m)) == [m]
  {
    var s := Seed(n, m);
    ValuesAppend(s[..n - 1], [Some(m)]);
    ValuesEmpty(s[..n - 1]);
    assert s == s[..n - 1] + [Some(m)];
  }

  /**
   * pushLeft(keys, values, index): every slot below `index` takes the contents of the
   * slot above it; slot `index` and the slots above keep theirs.
   */
  function Shifted(b: Buffer, index: int): (r: Buffer)
    requires 0 <= index < |b|
    ensures |r| == |b|
    ensures forall i :: 0 <= i < index ==> r[i] == b[i + 1]
    ensures forall i :: index <= i < |b| ==> r[i] == b[i]
  {
    b[1..index + 1] + b[index..]
  }

  /**
   * The slot where the downward scan from slot i stops for candidate e: the first
   * populated slot whose value e reaches, or None when a free slot or the bottom of
   * the buffer comes first.
   */
  function Target(b: Buffer, e: Entry, i: int): (r: Option<nat>)
    requires -1 <= i < |b|
    ensures r.Some? ==> r.val <= i && b[r.val].Some? && b[r.val].val.value <= e.value
    decreases i + 1
  {
    if i < 0 then None
    else if b[i].None? then None
    else if e.value >= b[i].val.value then Some(i)
    else Target(b, e, i - 1)
  }

  /**
   * The scan stops at a populated slot the candidate reaches, after passing only
   * populated slots it is below; when it finds no slot, every slot of the populated
   * run just below i is above the candidate.
   */
  lemma {:induction false} TargetFacts(b: Buffer, e: Entry, i: int)
    requires -1 <= i < |b|
    ensures var r := Target(b, e, i);
      && (r.Some? ==> forall k :: r.val < k <= i ==> b[k].Some? && e.value < b[k].val.value)
      && (r.None? ==> forall k :: 0 <= k <= i && (forall j :: k <= j <= i ==> b[j].Some?) ==>
                        e.value < b[k].val.value)
    decreases i + 1
  {
    if i >= 0 && b[i].Some? && e.value < b[i].val.value {
      TargetFacts(b, e, i - 1);
    }
  }

  /** One step of the scan: the buffer after candidate e has been offered. */
  function Placed(b: Buffer, e: Entry): (r: Buffer)
    ensures |r| == |b|
  {
    match Target(b, e, |b| - 1)
    case None => b
    case Some(i) => b[1..i + 1] + [Some(e)] + b[i + 1..]
  }

  /** The buffer after every entry of `es` has been offered, in order. */
  function PlacedAll(b: Buffer, es: seq<Entry>): (r: Buffer)
    ensures |r| == |b|
    decreases |es|
  {
    if es == [] then b else PlacedAll(Placed(b, es[0]), es[1..])
  }

  lemma {:induction false} PlacedAllAppend(b: Buffer, es: seq<Entry>, fs: seq<Entry>)
    ensures PlacedAll(b, es + fs) == PlacedAll(PlacedAll(b, es), fs)
    decreases |es|
  {
    if es == [] {
      assert es + fs == fs;
    } else {
      assert (es + fs)[1..] == es[1..] + fs;
      PlacedAllAppend(Placed(b, es[0]), es[1..], fs);
    }
  }

  /** Offering one more entry after a sequence of them. */
  lemma {:induction false} PlacedAllSnoc(b: Buffer, es: seq<Entry>, e: Entry)
    ensures PlacedAll(b, es + [e]) == Placed(PlacedAll(b, es), e)
  {
    PlacedAllAppend(b, es, [e]);
    assert [e][1..] == [];
  }

  /** The buffer after placing e at slot i, slot by slot. */
  lemma {:induction false} PlacedAt(b: Buffer, e: Entry, i: nat)
    requires Target(b, e, |b| - 1) == Some(i)
    ensures var r := Placed(b, e);
      && (forall k :: 0 <= k < i ==> r[k] == b[k + 1])
      && r[i] == Some(e)
      && (forall k :: i < k < |b| ==> r[k] == b[k])
  {
  }

  /** Placing shifts the slot contents and inserts the candidate keeping order and shape. */
  lemma {:induction false} PlacedWellFormed(b: Buffer, e: Entry)
    requires WellFormed(b)
    ensures WellFormed(Placed(b, e))
  {
    TargetFacts(b, e, |b| - 1);
    if Target(b, e, |b| - 1).Some? {
      PlacedAt(b, e, Target(b, e, |b| - 1).val);
    }
  }

  /** Placing at slot i splits the buffer into slot 0, slots 1..i and the slots above i. */
  lemma {:induction false} PlacedSplit(b: Buffer, e: Entry, i: nat)
    requires Target(b, e, |b| - 1) == Some(i)
    ensures Values(b) == Values([b[0]]) + Values(b[1..i + 1]) + Values(b[i + 1..])
    ensures Values(Placed(b, e)) == Values(b[1..i + 1]) + [e] + Values(b[i + 1..])
  {
    var a, mid, c := [b[0]], b[1..i + 1], b[i + 1..];
    assert b == a + mid + c;
    ValuesAppend(a + mid, c);
    ValuesAppend(a, mid);
    assert Placed(b, e) == mid + [Some(e)] + c;
    ValuesAppend(mid + [Some(e)], c);
    ValuesAppend(mid, [Some(e)]);
    ValuesSingle(Some(e));
  }

  /** The entries after placing: the candidate comes in and slot 0's entry, if any, falls out. */
  lemma {:induction false} PlacedValues(b: Buffer, e: Entry)
    requires Target(b, e, |b| - 1).Some?
    ensures multiset(Values(Placed(b, e))) + multiset(Values([b[0]])) == multiset(Values(b)) + multiset{e}
  {
    PlacedSplit(b, e, Target(b, e, |b| - 1).val);
  }

  lemma {:induction false} ValuesSingle(o: Option<Entry>)
    ensures Values([o]) == if o.Some? then [o.val] else []
  {
    assert [o][1..] == [];
  }

  /** A well-formed buffer is full exactly when its slot 0 is populated. */
  lemma {:induction false} FullIffSlot0(b: Buffer)
    requires WellFormed(b) && |b| >= 1
    ensures b[0].Some? <==> |Values(b)| == |b|
  {
    if b[0].Some? {
      ValuesFull(b);
    } else {
      assert |Values(b)| == |Values(b[1..])|;
    }
  }

  /** A sub-multiset of the same size is the whole multiset. */
  lemma {:induction false} SubMultisetFull<T>(a: multiset<T>, s: multiset<T>)
    requires a <= s && |a| == |s|
    ensures a == s
  {
    assert |s - a| == |s| - |a|;
    assert s - a == multiset{};
  }

  /** A candidate at least as large as some buffered entry finds a slot. */
  lemma {:induction false} FindsSlot(b: Buffer, m: Entry, e: Entry)
    requires WellFormed(b) && m in Values(b) && m.value <= e.value
    ensures Target(b, e, |b| - 1).Some?
  {
    TargetFacts(b, e, |b| - 1);
    ValuesMembers(b);
    var p :| 0 <= p < |b| && b[p] == Some(m);
    assert forall j :: p <= j <= |b| - 1 ==> b[j].Some?;
  }

  /** Slot 0 of a full well-formed buffer holds its smallest value. */
  lemma {:induction false} Slot0Smallest(b: Buffer)
    requires WellFormed(b) && |b| >= 1 && b[0].Some?
    ensures forall y :: y in multiset(Values(b)) ==> b[0].val.value <= y.value
  {
    ValuesMembers(b);
    forall y | y in multiset(Values(b))
      ensures b[0].val.value <= y.value
    {
      var k :| 0 <= k < |b| && b[k] == Some(y);
    }
  }

  /**
   * The invariant of the scan over a multiset `seen` of offered entries: the buffer is
   * well-formed, holds a sub-multiset of `seen` of size min(n, |seen|), and every entry
   * left out is at most the value in slot 0, the smallest one kept.
   */
  ghost predicate Keeps(b: Buffer, seen: multiset<Entry>)
  {
    && WellFormed(b)
    && multiset(Values(b)) <= seen
    && |Values(b)| == Min(|b|, |seen|)
    && (forall x :: x in seen - multiset(Values(b)) ==>
          |b| >= 1 && b[0].Some? && x.value <= b[0].val.value)
  }

  /** Case of KeepsStep: a free slot remains, so the candidate is added and nothing is lost. */
  lemma {:induction false} KeepsStepGrow(b: Buffer, seen: multiset<Entry>, m: Entry, e: Entry)
    requires |b| >= 1 && Keeps(b, seen) && m in seen && m.value <= e.value
    requires |Values(b)| < |b|
    ensures Keeps(Placed(b, e), seen + multiset{e})
  {
    SubMultisetFull(multiset(Values(b)), seen);
    FullIffSlot0(b);
    FindsSlot(b, m, e);
    PlacedValues(b, e);
    ValuesSingle(b[0]);
    PlacedWellFormed(b, e);
  }

  /** Case of KeepsStep: the buffer is full and the candidate is below every entry, so it is dropped. */
  lemma {:induction false} KeepsStepDrop(b: Buffer, seen: multiset<Entry>, e: Entry)
    requires |b| >= 1 && Keeps(b, seen)
    requires |Values(b)| == |b| && Target(b, e, |b| - 1).None?
    ensures Keeps(Placed(b, e), seen + multiset{e})
  {
    var vs := multiset(Values(b));
    FullIffSlot0(b);
    TargetFacts(b, e, |b| - 1);
    assert forall j :: 0 <= j <= |b| - 1 ==> b[j].Some?;
    assert e.value < b[0].val.value;
    assert (seen + multiset{e}) - vs == (seen - vs) + multiset{e};
  }

  /** The new slot 0 after a replacement holds a value no smaller than the old slot 0. */
  lemma {:induction false} Slot0Grows(b: Buffer, e: Entry)
    requires WellFormed(b) && |b| >= 1 && b[0].Some? && Target(b, e, |b| - 1).Some?
    ensures Placed(b, e)[0].Some? && b[0].val.value <= Placed(b, e)[0].val.value
  {
    var i := Target(b, e, |b| - 1).val;
    PlacedAt(b, e, i);
  }

  /** Case of KeepsStep: the buffer is full; the candidate comes in and slot 0's entry falls out. */
  lemma {:induction false} KeepsStepReplace(b: Buffer, seen: multiset<Entry>, e: Entry)
    requires |b| >= 1 && Keeps(b, seen)
    requires |Values(b)| == |b| && Target(b, e, |b| - 1).Some?
    ensures Keeps(Placed(b, e), seen + multiset{e})
  {
    FullIffSlot0(b);
    ValuesMembers(b);
    PlacedValues(b, e);
    ValuesSingle(b[0]);
    PlacedWellFormed(b, e);
    Slot0Grows(b, e);
    KeepsReplaceCounts(multiset(Values(b)), multiset(Values(Placed(b, e))), seen, b[0].val, e);
  }

  /** The multiset bookkeeping of a replacement: b0 leaves the kept entries and e joins them. */
  lemma {:induction false} KeepsReplaceCounts(vs: multiset<Entry>, rs: multiset<Entry>, seen: multiset<Entry>, b0: Entry, e: Entry)
    requires vs <= seen && b0 in vs && rs + multiset{b0} == vs + multiset{e}
    ensures rs <= seen + multiset{e} && |rs| == |vs|
    ensures (seen + multiset{e}) - rs == (seen - vs) + multiset{b0}
  {
    forall x
      ensures rs[x] == vs[x] + (if x == e then 1 else 0) - (if x == b0 then 1 else 0)
    {
      assert (rs + multiset{b0})[x] == (vs + multiset{e})[x];
    }
    assert |rs + multiset{b0}| == |vs + multiset{e}|;
    forall x
      ensures rs[x] <= (seen + multiset{e})[x]
    {
      assert vs[x] <= seen[x];
    }
    var l, r := (seen + multiset{e}) - rs, (seen - vs) + multiset{b0};
    forall x
      ensures l[x] == r[x]
    {
      assert vs[x] <= seen[x];
    }
    assert l == r;
  }

  lemma {:induction false} KeepsStep(b: Buffer, seen: multiset<Entry>, m: Entry, e: Entry)
    requires |b| >= 1 && Keeps(b, seen) && m in seen && m.value <= e.value
    ensures Keeps(Placed(b, e), seen + multiset{e})
  {
    if |Values(b)| < |b| {
      KeepsStepGrow(b, seen, m, e);
    } else if Target(b, e, |b| - 1).None? {
      KeepsStepDrop(b, seen, e);
    } else {
      KeepsStepReplace(b, seen, e);
    }
  }

  /** Offering a whole sequence of entries, each at least as large as the seed m, keeps the invariant. */
  lemma {:induction false} KeepsAll(b: Buffer, seen: multiset<Entry>, m: Entry, es: seq<Entry>)
    requires |b| >= 1 && Keeps(b, seen) && m in seen
    requires forall e :: e in es ==> m.value <= e.value
    ensures Keeps(PlacedAll(b, es), seen + multiset(es))
    decreases |es|, 1
  {
    if es == [] {
      assert seen + multiset(es) == seen;
    } else {
      KeepsAllCons(b, seen, m, es);
    }
  }

  /** The inductive step of KeepsAll: offer the first entry, then the rest. */
  lemma {:induction false} KeepsAllCons(b: Buffer, seen: multiset<Entry>, m: Entry, es: seq<Entry>)
    requires |b| >= 1 && Keeps(b, seen) && m in seen && es != []
    requires forall e :: e in es ==> m.value <= e.value
    ensures Keeps(PlacedAll(b, es), seen + multiset(es))
    decreases |es|, 0
  {
    KeepsStep(b, seen, m, es[0]);
    KeepsAll(Placed(b, es[0]), seen + multiset{es[0]}, m, es[1..]);
    MultisetCons(seen, es);
  }

  lemma {:induction false} MultisetCons(seen: multiset<Entry>, es: seq<Entry>)
    requires es != []
    ensures seen + multiset(es) == seen + multiset{es[0]} + multiset(es[1..])
  {
    assert es == [es[0]] + es[1..];
  }

  /** The scan started from the seed keeps the invariant over the seed and the visited entries. */
  lemma {:induction false} KeepsFromSeed(n: int, m: Entry, es: seq<Entry>)
    requires n >= 1
    requires forall e :: e in es ==> m.value <= e.value
    ensures Keeps(PlacedAll(Seed(n, m), es), multiset([m] + es))
  {
    SeedShape(n, m);
    KeepsAll(Seed(n, m), multiset{m}, m, es);
    assert multiset([m] + es) == multiset{m} + multiset(es);
  }

  /**
   * What PrintMostFrequent computes when its seed m is a minimum-value entry: a buffer
   * sorted by value holding min(n, |es| + 1) entries of the seed plus the visited entries,
   * and no entry left out has a larger value than an entry kept.
   */
  lemma {:induction false} TopN(n: int, m: Entry, es: seq<Entry>)
    requires n >= 1
    requires forall e :: e in es ==> m.value <= e.value
    ensures var b := PlacedAll(Seed(n, m), es);
      && |b| == n
      && WellFormed(b)
      && |Values(b)| == Min(n, |es| + 1)
      && multiset(Values(b)) <= multiset([m] + es)
      && (forall x, y :: x in multiset([m] + es) - multiset(Values(b)) && y in multiset(Values(b)) ==>
            x.value <= y.value)
  {
    KeepsFromSeed(n, m, es);
    var b := PlacedAll(Seed(n, m), es);
    if b[0].Some? {
      Slot0Smallest(b);
    }
  }

  /** With more slots than visited entries nothing is dropped: the seed and every entry are kept. */
  lemma {:induction false} TopNAll(n: int, m: Entry, es: seq<Entry>)
    requires n > |es|
    requires forall e :: e in es ==> m.value <= e.value
    ensures multiset(Values(PlacedAll(Seed(n, m), es))) == multiset([m] + es)
  {
    KeepsFromSeed(n, m, es);
    SubMultisetFull(multiset(Values(PlacedAll(Seed(n, m), es))), multiset([m] + es));
  }

  /** Offering keeps the buffer well-formed whatever the seed and the candidates. */
  lemma {:induction false} PlacedAllWellFormed(b: Buffer, es: seq<Entry>)
    requires WellFormed(b)
    ensures WellFormed(PlacedAll(b, es))
    decreases |es|
  {
    if es != [] {
      PlacedWellFormed(b, es[0]);
      PlacedAllWellFormed(Placed(b, es[0]), es[1..]);
    }
  }

  /** Every entry ever in the buffer was in it at the start or was offered. */
  lemma {:induction false} PlacedAllFrom(b: Buffer, es: seq<Entry>)
    ensures multiset(Values(PlacedAll(b, es))) <= multiset(Values(b)) + multiset(es)
    decreases |es|
  {
    if es != [] {
      PlacedFrom(b, es[0]);
      PlacedAllFrom(Placed(b, es[0]), es[1..]);
      MultisetCons(multiset(Values(b)), es);
    }
  }

  lemma {:induction false} PlacedFrom(b: Buffer, e: Entry)
    ensures multiset(Values(Placed(b, e))) <= multiset(Values(b)) + multiset{e}
  {
    if Target(b, e, |b| - 1).Some? {
      PlacedValues(b, e);
    }
  }

  /** Values never decrease along `s`: the order in which PrintMostFrequent prints. */
  predicate SortedByValue(s: seq<Entry>)
  {
    forall i, j :: 0 <= i < j < |s| ==> s[i].value <= s[j].value
  }

  /** The entries of a well-formed buffer, read from slot 0 upwards, are sorted by value. */
  lemma {:induction false} ValuesSorted(b: Buffer)
    requires WellFormed(b)
    ensures SortedByValue(Values(b))
  {
    if b != [] {
      var t := b[1..];
      assert WellFormed(t) by {
        forall i, j | 0 <= i <= j < |t| && t[i].Some?
          ensures t[j].Some? && t[i].val.value <= t[j].val.value
        {
          assert t[i] == b[i + 1] && t[j] == b[j + 1];
        }
      }
      ValuesSorted(t);
      if b[0].Some? {
        ValuesMembers(t);
        var s := Values(b);
        assert s == [b[0].val] + Values(t);
        forall j | 0 < j < |s|
          ensures s[0].value <= s[j].value
        {
          assert s[j] in Values(t);
          var k :| 0 <= k < |t| && t[k] == Some(s[j]);
          assert b[k + 1] == Some(s[j]);
        }
      }
    }
  }

  /**
   * What PrintMostFrequent reports from a multiset `pool` of candidate entries: at most
   * n of them, sorted by value, as many as the buffer can hold, and none of the entries
   * left out has a larger value than an entry reported.
   */
  ghost predicate TopOf(r: seq<Entry>, n: int, pool: multiset<Entry>)
  {
    && SortedByValue(r)
    && |r| == Min(n, |pool|)
    && multiset(r) <= pool
    && (forall x, y :: x in pool - multiset(r) && y in multiset(r) ==> x.value <= y.value)
  }

  /** The printed entries of the scan from a minimum-value seed are the top n of the seed and the visited entries. */
  lemma {:induction false} Report(n: int, m: Entry, es: seq<Entry>)
    requires n >= 1
    requires forall e :: e in es ==> m.value <= e.value
    ensures TopOf(Values(PlacedAll(Seed(n, m), es)), n, multiset([m] + es))
  {
    TopN(n, m, es);
    ValuesSorted(PlacedAll(Seed(n, m), es));
  }

  /**
   * A left-to-right scan for a minimum value starting from m in which a later entry with
   * an equal value replaces the current one: the last minimum of [m] + s.
   */
  function LastMinimum(m: Entry, s: seq<Entry>): Entry
    decreases |s|
  {
    if s == [] then m else LastMinimum(if s[0].value <= m.value then s[0] else m, s[1..])
  }

  /**
   * A left-to-right scan for a minimum value starting from m in which only a strictly
   * smaller value replaces the current entry: the first minimum of [m] + s.
   */
  function FirstMinimum(m: Entry, s: seq<Entry>): Entry
    decreases |s|
  {
    if s == [] then m else FirstMinimum(if s[0].value < m.value then s[0] else m, s[1..])
  }

  /**
   * The last minimum has the least value of [m] + s and sits at a position of [m] + s
   * after which every entry has a strictly larger value.
   */
  lemma {:induction false} LastMinimumIsLastMin(m: Entry, s: seq<Entry>)
    ensures var r, t := LastMinimum(m, s), [m] + s;
      && (forall j :: 0 <= j < |t| ==> r.value <= t[j].value)
      && exists k :: 0 <= k < |t| && t[k] == r && forall j :: k < j < |t| ==> r.value < t[j].value
    decreases |s|
  {
    var r, t := LastMinimum(m, s), [m] + s;
    if s == [] {
      assert t[0] == r;
    } else {
      var m' := if s[0].value <= m.value then s[0] else m;
      var t' := [m'] + s[1..];
      LastMinimumIsLastMin(m', s[1..]);
      assert r == LastMinimum(m', s[1..]);
      assert forall j :: 1 <= j < |t| ==> t[j] == s[j - 1];
      assert forall j :: 1 <= j < |t'| ==> t'[j] == t[j + 1];
      var k' :| 0 <= k' < |t'| && t'[k'] == r && forall j :: k' < j < |t'| ==> r.value < t'[j].value;
      forall j | 0 <= j < |t|
        ensures r.value <= t[j].value
      {
        if j >= 2 {
          assert t[j] == t'[j - 1];
        } else {
          assert t'[0] == m';
        }
      }
      var k := if k' > 0 || s[0].value <= m.value then k' + 1 else 0;
      forall j | k < j < |t|
        ensures r.value < t[j].value
      {
        if j >= 2 {
          assert t[j] == t'[j - 1];
        }
      }
      assert t[k] == r;
    }
  }

  /**
   * The first minimum has the least value of [m] + s and sits at a position of [m] + s
   * before which every entry has a strictly larger value.
   */
  lemma {:induction false} FirstMinimumIsFirstMin(m: Entry, s: seq<Entry>)
    ensures var r, t := FirstMinimum(m, s), [m] + s;
      && (forall j :: 0 <= j < |t| ==> r.value <= t[j].value)
      && exists k :: 0 <= k < |t| && t[k] == r && forall j :: 0 <= j < k ==> r.value < t[j].value
    decreases |s|
  {
    var r, t := FirstMinimum(m, s), [m] + s;
    if s == [] {
      assert t[0] == r;
    } else {
      var m' := if s[0].value < m.value then s[0] else m;
      var t' := [m'] + s[1..];
      FirstMinimumIsFirstMin(m', s[1..]);
      assert r == FirstMinimum(m', s[1..]);
      assert forall j :: 1 <= j < |t| ==> t[j] == s[j - 1];
      assert forall j :: 1 <= j < |t'| ==> t'[j] == t[j + 1];
      var k' :| 0 <= k' < |t'| && t'[k'] == r && forall j :: 0 <= j < k' ==> r.value < t'[j].value;
      forall j | 0 <= j < |t|
        ensures r.value <= t[j].value
      {
        if j >= 2 {
          assert t[j] == t'[j - 1];
        } else {
          assert t'[0] == m';
        }
      }
      var k := if k' > 0 || s[0].value < m.value then k' + 1 else 0;
      forall j | 0 <= j < k
        ensures r.value < t[j].value
      {
        if j >= 2 {
          assert t[j] == t'[j - 1];
        } else if k' > 0 {
          assert t'[0] == m';
        }
      }
      assert t[k] == r;
    }
  }

  /** The first entry of least value in a nonempty sequence: what findMinValue and findMinFrequency pick. */
  lemma {:induction false} FirstMinimumOfAll(s: seq<Entry>)
    requires s != []
    ensures var m := FirstMinimum(s[0], s);
      && m in s
      && (forall e :: e in s ==> m.value <= e.value)
      && exists k :: 0 <= k < |s| && s[k] == m && forall j :: 0 <= j < k ==> m.value < s[j].value
  {
    var m := FirstMinimum(s[0], s);
    var t := [s[0]] + s;
    FirstMinimumIsFirstMin(s[0], s);
    var k :| 0 <= k < |t| && t[k] == m && forall j :: 0 <= j < k ==> m.value < t[j].value;
    forall e | e in s
      ensures m.value <= e.value
    {
      var j :| 0 <= j < |s| && s[j] == e;
      assert t[j + 1] == e;
    }
    if k == 0 {
      assert s[0] == m;
    } else {
      assert s[k - 1] == m && t[0] == s[0];
      forall j | 0 <= j < k - 1
        ensures m.value < s[j].value
      {
        assert t[j + 1] == s[j];
      }
    }
  }

  lemma {:induction false} LastMinimumAppend(m: Entry, s: seq<Entry>, t: seq<Entry>)
    ensures LastMinimum(m, s + t) == LastMinimum(LastMinimum(m, s), t)
    decreases |s|
  {
    if s == [] {
      assert s + t == t;
    } else {
      assert (s + t)[1..] == s[1..] + t;
      LastMinimumAppend(if s[0].value <= m.value then s[0] else m, s[1..], t);
    }
  }

  lemma {:induction false} FirstMinimumAppend(m: Entry, s: seq<Entry>, t: seq<Entry>)
    ensures FirstMinimum(m, s + t) == FirstMinimum(FirstMinimum(m, s), t)
    decreases |s|
  {
    if s == [] {
      assert s + t == t;
    } else {
      assert (s + t)[1..] == s[1..] + t;
      FirstMinimumAppend(if s[0].value < m.value then s[0] else m, s[1..], t);
    }
  }

  /** Two scans of the same entries agree once some entry is below both starting points. */
  lemma {:induction false} LastMinimumForgets(m1: Entry, m2: Entry, s: seq<Entry>)
    requires exists e :: e in s && e.value < m1.value && e.value < m2.value
    ensures LastMinimum(m1, s) == LastMinimum(m2, s)
    decreases |s|
  {
    var n1 := if s[0].value <= m1.value then s[0] else m1;
    var n2 := if s[0].value <= m2.value then s[0] else m2;
    if n1 == n2 {
    } else {
      var e :| e in s && e.value < m1.value && e.value < m2.value;
      if e == s[0] {
        assert false;
      }
      assert e in s[1..];
      LastMinimumForgets(n1, n2, s[1..]);
    }
  }

  /**
   * The seed is visited again when the traversal reaches it, so it can occupy two slots:
   * a container whose only entry is e reports e twice for n = 2.
   */
  lemma {:induction false} SeedCountedTwice(e: Entry)
    ensures PlacedAll(Seed(2, e), [e]) == [Some(e), Some(e)]
  {
    var b := Seed(2, e);
    assert b == [None, Some(e)];
    assert Target(b, e, 1) == Some(1);
    assert Placed(b, e) == [Some(e), Some(e)];
  }

  /**
   * pushLeft: shifts the slots below `index` one place to the left.
   */
  method PushLeft(buf: array<Option<Entry>>, index: int)
    requires 0 <= index < buf.Length
    modifies buf
    ensures buf[..] == Shifted(old(buf[..]), index)
  {
    var i := 0;
    while i < index
      invariant 0 <= i <= index
      invariant forall k :: 0 <= k < i ==> buf[k] == old(buf[k + 1])
      invariant forall k :: i <= k < buf.Length ==> buf[k] == old(buf[k])
    {
      buf[i] := buf[i + 1];
      i := i + 1;
    }
  }

  /**
   * The inner loop of PrintMostFrequent for one visited entry: scan down from slot n-1,
   * stop at a free slot, or shift and insert at the first populated slot e reaches.
   */
  method Place(buf: array<Option<Entry>>, e: Entry)
    modifies buf
    ensures buf[..] == Placed(old(buf[..]), e)
  {
    ghost var b := buf[..];
    var i := buf.Length - 1;
    while i >= 0
      invariant -1 <= i < buf.Length
      invariant buf[..] == b
      invariant Target(b, e, |b| - 1) == Target(b, e, i)
      decreases i
    {
      if buf[i].None? {
        return;
      }
      if e.value >= buf[i].val.value {
        PushLeft(buf, i);
        buf[i] := Some(e);
        ShiftedPlaced(b, e, i);
        return;
      }
      i := i - 1;
    }
  }

  /** pushLeft followed by the store into slot i is the placement at slot i. */
  lemma {:induction false} ShiftedPlaced(b: Buffer, e: Entry, i: nat)
    requires Target(b, e, |b| - 1) == Some(i)
    ensures Shifted(b, i)[i := Some(e)] == Placed(b, e)
  {
    PlacedAt(b, e, i);
  }
}
