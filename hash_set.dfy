/**
 * The separate-chaining hash table (HashSet.java): an array of chains and a record
 * count. A chain is modelled as the sequence of its records from the head of the bucket;
 * the hash code of a key is a parameter of the table. Buckets are chosen by
 * Math.abs(hashCode) % length, the table is rehashed into getPrime(length) buckets
 * before a record is linked while size/length is at least 0.75, and getPrime searches
 * downwards from 2 * length - 1 for a number that passes its divisor test.
 */
module HashTable {
  import opened Common
  import opened TopFrequent
  import opened Records

  /** A Java int. */
  type Int32 = x: int | -0x8000_0000 <= x < 0x8000_0000

  /** Integer.MIN_VALUE. */
  const MinInt: Int32 := -0x8000_0000

  /** INITSIZE: the number of buckets of a new table. */
  const InitialSize := 31

  // ---------------------------------------------------------------------------------
  // hashFunction
  // ---------------------------------------------------------------------------------

  /** Math.abs on an int: Integer.MIN_VALUE has no positive counterpart and stays negative. */
  function Abs(h: Int32): int
  {
    if h == MinInt then h else if h < 0 then -h else h
  }

  /** Java's % on ints: the remainder takes the sign of the dividend. */
  function Rem(a: int, b: int): (r: int)
    requires b > 0
    ensures a >= 0 ==> 0 <= r < b
    ensures a < 0 ==> -b < r <= 0
  {
    if a >= 0 then a % b else -((-a) % b)
  }

  /** hashFunction: the bucket of a key whose hash code is h in a table of len buckets. */
  function HashIndex(h: Int32, len: int): (r: int)
    requires len > 0
    ensures h != MinInt ==> 0 <= r < len
    ensures h == MinInt ==> -len < r <= 0
  {
    Rem(Abs(h), len)
  }

  ghost predicate IsPow2(x: int)
    decreases x
  {
    x == 1 || (x >= 2 && x % 2 == 0 && IsPow2(x / 2))
  }

  lemma {:induction false} OddFactor(m: int, q: int)
    requires m % 2 == 1 && (m * q) % 2 == 0
    ensures q % 2 == 0
  {
    var a := m / 2;
    var b := q / 2;
    assert q == 2 * b + q % 2 && m == 2 * a + 1;
    assert m * q == 2 * (m * b + a * (q % 2)) + q % 2;
  }

  /** No odd number above 1 divides a power of two. */
  lemma {:induction false} OddNoMultiple(x: int, m: int, q: int)
    requires m >= 3 && m % 2 == 1 && IsPow2(x)
    ensures x != m * q
    decreases x
  {
    if x == 1 {
      if q >= 1 {
        assert m * q >= m;
      } else {
        assert m * q <= 0;
      }
    } else if x == m * q {
      OddFactor(m, q);
      var c := q / 2;
      assert m * q == 2 * (m * c);
      OddNoMultiple(x / 2, m, c);
    }
  }

  lemma {:induction false} OddDoesNotDivide(m: int)
    requires m >= 3 && m % 2 == 1
    ensures 0x8000_0000 % m != 0
  {
    assert IsPow2(0x8000_0000) by {
      assert IsPow2(1) && IsPow2(2) && IsPow2(4) && IsPow2(8) && IsPow2(16) && IsPow2(32) && IsPow2(64) && IsPow2(128);
      assert IsPow2(256) && IsPow2(512) && IsPow2(1024) && IsPow2(2048) && IsPow2(0x1000) && IsPow2(0x2000) && IsPow2(0x4000) && IsPow2(0x8000);
      assert IsPow2(0x1_0000) && IsPow2(0x2_0000) && IsPow2(0x4_0000) && IsPow2(0x8_0000) && IsPow2(0x10_0000) && IsPow2(0x20_0000) && IsPow2(0x40_0000) && IsPow2(0x80_0000);
      assert IsPow2(0x100_0000) && IsPow2(0x200_0000) && IsPow2(0x400_0000) && IsPow2(0x800_0000) && IsPow2(0x1000_0000) && IsPow2(0x2000_0000) && IsPow2(0x4000_0000);
    }
    OddNoMultiple(0x8000_0000, m, 0x8000_0000 / m);
  }

  /**
   * A key whose hash code is Integer.MIN_VALUE gets a negative bucket in every table
   * whose length passed getPrime's test (31 included), so each operation on it throws
   * ArrayIndexOutOfBoundsException.
   */
  lemma {:induction false} HashIndexOfMin(len: int)
    requires PassesPrimeTest(len)
    ensures HashIndex(MinInt, len) < 0
  {
    PassesIsOdd(len);
    OddDoesNotDivide(len);
  }

  // ---------------------------------------------------------------------------------
  // getPrime
  // ---------------------------------------------------------------------------------

  /**
   * The test getPrime applies to a candidate p: its divisor loop runs for i = 2, 3, ...
   * while i < Math.sqrt(p), which for an int p is i * i < p, and p passes when the loop
   * ran at least once and met no divisor.
   */
  ghost predicate PassesPrimeTest(p: int)
  {
    4 < p && forall d :: 2 <= d && d * d < p ==> p % d != 0
  }

  lemma {:induction false} SquareMono(a: int, b: int)
    requires 0 <= a <= b
    ensures a * a <= b * b
  {
    assert a * a <= a * b;
  }

  lemma {:induction false} PassesIsOdd(p: int)
    requires PassesPrimeTest(p)
    ensures p >= 5 && p % 2 == 1
  {
    assert 2 * 2 < p;
  }

  lemma {:induction false} PassesFive()
    ensures PassesPrimeTest(5)
  {
    forall d | 2 <= d && d * d < 5
      ensures 5 % d != 0
    {
      if d >= 3 {
        SquareMono(3, d);
      }
    }
  }

  lemma {:induction false} PassesInitialSize()
    ensures PassesPrimeTest(InitialSize)
  {
    forall d | 2 <= d && d * d < 31
      ensures 31 % d != 0
    {
      if d >= 6 {
        SquareMono(6, d);
      }
      assert d == 2 || d == 3 || d == 4 || d == 5;
    }
  }

  /** The largest number no larger than m that passes the test. */
  ghost function LargestPassing(m: int): (r: int)
    requires m >= 5
    ensures 5 <= r <= m && PassesPrimeTest(r)
    ensures forall q :: r < q <= m ==> !PassesPrimeTest(q)
    decreases m
  {
    PassesFive();
    if PassesPrimeTest(m) then m else LargestPassing(m - 1)
  }

  lemma {:induction false} LargestPassingUnique(m: int, p: int)
    requires 5 <= p <= m && PassesPrimeTest(p)
    requires forall q :: p < q <= m ==> !PassesPrimeTest(q)
    ensures p == LargestPassing(m)
    decreases m
  {
    if p < m {
      LargestPassingUnique(m - 1, p);
    }
  }

  /**
   * The test is weaker than primality: 121 = 11 * 11 passes, so the capacities of a
   * table that starts with 31 buckets go 31, 61, 121.
   */
  lemma {:induction false} SecondRehashIsSquare()
    ensures LargestPassing(2 * InitialSize - 1) == 61
    ensures LargestPassing(2 * 61 - 1) == 121 && 121 % 11 == 0
  {
    forall d | 2 <= d && d * d < 61
      ensures 61 % d != 0
    {
      if d >= 8 {
        SquareMono(8, d);
      }
      assert 2 <= d <= 7;
    }
    LargestPassingUnique(61, 61);
    forall d | 2 <= d && d * d < 121
      ensures 121 % d != 0
    {
      if d >= 11 {
        SquareMono(11, d);
      }
      assert 2 <= d <= 10;
    }
    LargestPassingUnique(121, 121);
  }

  /** After the divisor loop stopped on its own at i, the flag says whether p passes. */
  lemma {:induction false} DivisorLoopDecides(p: int, i: int)
    requires 2 <= i && (i - 1) * (i - 1) < p <= i * i
    ensures PassesPrimeTest(p) <==> i > 2 && forall d :: 2 <= d < i ==> p % d != 0
  {
    if i > 2 {
      SquareMono(2, i - 1);
    }
    forall d | 2 <= d && d * d < p
      ensures d < i
    {
      if d >= i {
        SquareMono(i, d);
      }
    }
    forall d | 2 <= d < i
      ensures d * d < p
    {
      SquareMono(d, i - 1);
    }
  }

  /** A divisor candidate whose square is below p is itself below p. */
  lemma {:induction false} RootBelow(i: int, p: int)
    requires 2 <= i && i * i < p
    ensures i < p
  {
    assert i * i >= 2 * i;
  }

  /**
   * getPrime(n): counts down from 2n - 1 until a number passes the divisor test. The
   * result is the largest number up to 2n - 1 that passes, which need not be prime.
   */
  method GetPrime(n: int) returns (prime: int)
    requires 3 <= n <= 0x4000_0000
    ensures prime == LargestPassing(2 * n - 1)
  {
    prime := n * 2 - 1;
    var isPrime := false;
    PassesFive();
    while !isPrime
      invariant 5 <= prime <= 2 * n - 1
      invariant forall q :: prime < q <= 2 * n - 1 ==> !PassesPrimeTest(q)
      invariant isPrime ==> PassesPrimeTest(prime)
      decreases prime, !isPrime
    {
      isPrime := DivisorLoop(prime);
      if !isPrime {
        prime := prime - 1;
      }
    }
    LargestPassingUnique(2 * n - 1, prime);
  }

  /**
   * The divisor loop of getPrime for one candidate, entered with isPrime false: it sets
   * the flag after each non-divisor and clears it and stops at the first divisor.
   */
  method DivisorLoop(prime: int) returns (isPrime: bool)
    ensures isPrime <==> PassesPrimeTest(prime)
  {
    isPrime := false;
    var i := 2;
    while i * i < prime
      invariant 2 <= i && (i == 2 || (i - 1) * (i - 1) < prime)
      invariant forall d :: 2 <= d < i ==> prime % d != 0
      invariant isPrime <==> i > 2
      decreases prime - i
    {
      if prime % i == 0 {
        isPrime := false;
        assert !PassesPrimeTest(prime);
        return;
      } else {
        isPrime := true;
      }
      RootBelow(i, prime);
      i := i + 1;
    }
    if i > 2 {
      DivisorLoopDecides(prime, i);
    }
  }

  // ---------------------------------------------------------------------------------
  // Chains and the table's records
  // ---------------------------------------------------------------------------------

  /** The records of the table in the order toString lists them: bucket by bucket, each chain from its head. */
  function Flatten(s: seq<seq<Entry>>): seq<Entry>
  {
    if s == [] then [] else s[0] + Flatten(s[1..])
  }

  lemma {:induction false} FlattenAppend(a: seq<seq<Entry>>, b: seq<seq<Entry>>)
    ensures Flatten(a + b) == Flatten(a) + Flatten(b)
    decreases |a|
  {
    if a == [] {
      assert a + b == b;
    } else {
      assert (a + b)[1..] == a[1..] + b;
      FlattenAppend(a[1..], b);
    }
  }

  lemma {:induction false} FlattenSplit(s: seq<seq<Entry>>, i: int)
    requires 0 <= i < |s|
    ensures Flatten(s) == Flatten(s[..i]) + s[i] + Flatten(s[i + 1..])
  {
    assert s == s[..i] + s[i..];
    FlattenAppend(s[..i], s[i..]);
    assert s[i..][1..] == s[i + 1..];
  }

  lemma {:induction false} FlattenPrefix(s: seq<seq<Entry>>, i: int)
    requires 0 <= i < |s|
    ensures Flatten(s[..i + 1]) == Flatten(s[..i]) + s[i]
  {
    assert s[..i + 1] == s[..i] + [s[i]];
    FlattenAppend(s[..i], [s[i]]);
    assert [s[i]][1..] == [];
  }

  lemma {:induction false} FlattenEmpty(s: seq<seq<Entry>>)
    requires forall i :: 0 <= i < |s| ==> s[i] == []
    ensures Flatten(s) == []
    decreases |s|
  {
    if s != [] {
      FlattenEmpty(s[1..]);
    }
  }

  lemma {:induction false} FlattenMembers(s: seq<seq<Entry>>, e: Entry)
    ensures e in Flatten(s) <==> exists b :: 0 <= b < |s| && e in s[b]
    decreases |s|
  {
    if s != [] {
      FlattenMembers(s[1..], e);
      if e in Flatten(s[1..]) {
        var b :| 0 <= b < |s[1..]| && e in s[1..][b];
        assert e in s[b + 1];
      }
      if exists b :: 0 <= b < |s| && e in s[b] {
        var b :| 0 <= b < |s| && e in s[b];
        if b > 0 {
          assert e in s[1..][b - 1];
        }
      }
    }
  }

  /** Replacing chain i by c changes the records by exactly the records of the two chains. */
  lemma {:induction false} FlattenUpdate(s: seq<seq<Entry>>, i: int, c: seq<Entry>)
    requires 0 <= i < |s|
    ensures multiset(Flatten(s[i := c])) == multiset(Flatten(s)) - multiset(s[i]) + multiset(c)
    ensures |Flatten(s[i := c])| == |Flatten(s)| - |s[i]| + |c|
  {
    FlattenSplit(s, i);
    FlattenSplit(s[i := c], i);
    assert s[i := c][..i] == s[..i];
    assert s[i := c][i + 1..] == s[i + 1..];
  }

  /** The records read so far by a bucket-then-chain walk stopped at record j of chain i. */
  lemma {:induction false} FlattenWalk(s: seq<seq<Entry>>, i: int, j: int)
    requires 0 <= i < |s| && 0 <= j < |s[i]|
    ensures |Flatten(s[..i])| + j < |Flatten(s)|
    ensures Flatten(s)[|Flatten(s[..i])| + j] == s[i][j]
    ensures Flatten(s[..i]) + s[i][..j] == Flatten(s)[..|Flatten(s[..i])| + j]
  {
    FlattenSplit(s, i);
  }

  /** The records still to be re-added by rehash, from bucket i on. */
  lemma {:induction false} FlattenSuffix(s: seq<seq<Entry>>, i: int)
    requires 0 <= i < |s|
    ensures Flatten(s[i..]) == s[i] + Flatten(s[i + 1..])
  {
    assert s[i..][1..] == s[i + 1..];
  }

  /** One more record of chain i read by the walk. */
  lemma {:induction false} WalkStep(s: seq<seq<Entry>>, i: int, j: int)
    requires 0 <= i < |s| && 0 <= j < |s[i]|
    ensures Flatten(s[..i]) + s[i][..j + 1] == Flatten(s[..i]) + s[i][..j] + [s[i][j]]
  {
    assert s[i][..j + 1] == s[i][..j] + [s[i][j]];
  }

  /** The walk has read all of chain i: the first i + 1 buckets. */
  lemma {:induction false} WalkNext(s: seq<seq<Entry>>, i: int)
    requires 0 <= i < |s|
    ensures Flatten(s[..i + 1]) == Flatten(s[..i]) + s[i][..|s[i]|]
  {
    FlattenPrefix(s, i);
    assert s[i][..|s[i]|] == s[i];
  }

  /** The walk has read every bucket. */
  lemma {:induction false} WalkDone(s: seq<seq<Entry>>)
    ensures Flatten(s[..|s|]) == Flatten(s)
  {
    assert s[..|s|] == s;
  }

  /** Every record sits in the bucket its key hashes to. */
  ghost predicate Hashed(s: seq<seq<Entry>>, hash: int -> Int32)
  {
    |s| > 0 && forall b, e :: 0 <= b < |s| && e in s[b] ==> HashIndex(hash(e.key), |s|) == b
  }

  lemma {:induction false} HashedUpdate(s: seq<seq<Entry>>, hash: int -> Int32, i: int, c: seq<Entry>)
    requires Hashed(s, hash) && 0 <= i < |s|
    requires forall e :: e in c ==> HashIndex(hash(e.key), |s|) == i
    ensures Hashed(s[i := c], hash)
  {
  }

  /** In a table whose records sit in their buckets, a key's first record is the first one of its chain. */
  lemma {:induction false} LookupInBucket(s: seq<seq<Entry>>, hash: int -> Int32, x: int)
    requires Hashed(s, hash) && hash(x) != MinInt
    ensures Find(Flatten(s), x) == Find(s[HashIndex(hash(x), |s|)], x)
  {
    var b := HashIndex(hash(x), |s|);
    FlattenSplit(s, b);
    forall e | e in Flatten(s[..b])
      ensures e.key != x
    {
      FlattenMembers(s[..b], e);
      var i :| 0 <= i < b && e in s[..b][i];
      assert e in s[i];
    }
    forall e | e in Flatten(s[b + 1..])
      ensures e.key != x
    {
      FlattenMembers(s[b + 1..], e);
      var i :| 0 <= i < |s| - b - 1 && e in s[b + 1..][i];
      assert e in s[b + 1 + i];
    }
    FindAppend(Flatten(s[..b]) + s[b], Flatten(s[b + 1..]), x);
    FindAppend(Flatten(s[..b]), s[b], x);
  }

  /** Replacing a chain by one with the same first record for k leaves k's first record in the table alone. */
  lemma {:induction false} FindUpdated(s: seq<seq<Entry>>, i: int, c: seq<Entry>, k: int)
    requires 0 <= i < |s| && Find(c, k) == Find(s[i], k)
    ensures Find(Flatten(s[i := c]), k) == Find(Flatten(s), k)
  {
    FlattenSplit(s, i);
    FlattenSplit(s[i := c], i);
    assert s[i := c][..i] == s[..i];
    assert s[i := c][i + 1..] == s[i + 1..];
    FindAppend(Flatten(s[..i]) + s[i], Flatten(s[i + 1..]), k);
    FindAppend(Flatten(s[..i]), s[i], k);
    FindAppend(Flatten(s[..i]) + c, Flatten(s[i + 1..]), k);
    FindAppend(Flatten(s[..i]), c, k);
  }

  /** Some record of the chain holds data v. */
  predicate HasData(c: seq<Entry>, v: int)
  {
    exists e :: e in c && e.value == v
  }

  /** A chain after remove unlinked its first record whose data is v. */
  function RemoveFirstData(c: seq<Entry>, v: int): (r: seq<Entry>)
    ensures multiset(r) <= multiset(c)
    ensures |r| == if HasData(c, v) then |c| - 1 else |c|
    decreases |c|
  {
    if c == [] then []
    else if c[0].value == v then
      assert c == [c[0]] + c[1..] && c[0] in c;
      c[1..]
    else
      assert c == [c[0]] + c[1..];
      assert HasData(c, v) <==> HasData(c[1..], v);
      [c[0]] + RemoveFirstData(c[1..], v)
  }

  /** remove's unlinking at position k, the first record with data v, is RemoveFirstData. */
  lemma {:induction false} RemoveFirstDataAt(c: seq<Entry>, v: int, k: int)
    requires 0 <= k < |c| && c[k].value == v
    requires forall j :: 0 <= j < k ==> c[j].value != v
    ensures RemoveFirstData(c, v) == c[..k] + c[k + 1..]
    decreases k
  {
    if k > 0 {
      RemoveFirstDataAt(c[1..], v, k - 1);
      assert c[..k] + c[k + 1..] == [c[0]] + (c[1..][..k - 1] + c[1..][k..]);
    }
  }

  lemma {:induction false} RemoveFirstDataAbsent(c: seq<Entry>, v: int)
    requires !HasData(c, v)
    ensures RemoveFirstData(c, v) == c
    decreases |c|
  {
    if c != [] {
      assert c[0] in c;
      assert !HasData(c[1..], v) by {
        forall e | e in c[1..]
          ensures e.value != v
        {
          assert e in c;
        }
      }
      RemoveFirstDataAbsent(c[1..], v);
    }
  }

  /**
   * The chain surgery of remove: the head is unlinked when its data is v; otherwise a
   * cursor walks while its successor's data differs from v and then unlinks that
   * successor, if there is one.
   */
  method Unlink(chain: seq<Entry>, v: int) returns (rest: seq<Entry>)
    ensures rest == RemoveFirstData(chain, v)
  {
    rest := chain;
    if chain != [] {
      if chain[0].value == v {
        RemoveFirstDataAt(chain, v, 0);
        rest := chain[1..];
      } else {
        var i := 0;
        while i + 1 < |chain| && chain[i + 1].value != v
          invariant 0 <= i < |chain|
          invariant forall j :: 0 <= j <= i ==> chain[j].value != v
        {
          i := i + 1;
        }
        if i + 1 < |chain| && chain[i + 1].value == v {
          RemoveFirstDataAt(chain, v, i + 1);
          rest := chain[..i + 1] + chain[i + 2..];
        } else {
          RemoveFirstDataAbsent(chain, v);
        }
      }
    } else {
      RemoveFirstDataAbsent(chain, v);
    }
  }

  /** put's overwrite keeps every record in its bucket and every other key's first record. */
  lemma {:induction false} Overwritten(s: seq<seq<Entry>>, hash: int -> Int32, x: int, y: int)
    requires Hashed(s, hash) && hash(x) != MinInt
    requires Find(s[HashIndex(hash(x), |s|)], x).Some?
    ensures var b := HashIndex(hash(x), |s|);
      var t := s[b := Overwrite(s[b], x, y)];
      && Hashed(t, hash)
      && |Flatten(t)| == |Flatten(s)|
      && Find(Flatten(t), x) == Some(y)
      && forall k :: k != x ==> Find(Flatten(t), k) == Find(Flatten(s), k)
  {
    var b := HashIndex(hash(x), |s|);
    var c := Overwrite(s[b], x, y);
    var t := s[b := c];
    HashedUpdate(s, hash, b, c);
    FlattenUpdate(s, b, c);
    FindOverwrite(s[b], x, y, x);
    LookupInBucket(t, hash, x);
    forall k | k != x
      ensures Find(Flatten(t), k) == Find(Flatten(s), k)
    {
      FindOverwrite(s[b], x, y, k);
      FindUpdated(s, b, c, k);
    }
  }

  /** put's overwrite of the first record of x in chain b, as a change of the records. */
  lemma {:induction false} OverwriteRecords(s: seq<seq<Entry>>, b: int, i: int, x: int, y: int)
    requires 0 <= b < |s| && 0 <= i < |s[b]| && s[b][i].key == x
    ensures multiset(Flatten(s[b := s[b][i := Entry(x, y)]])) == multiset(Flatten(s)) - multiset{s[b][i]} + multiset{Entry(x, y)}
  {
    var c := s[b];
    var d := c[i := Entry(x, y)];
    MultisetReplace(c, i, Entry(x, y));
    FlattenSplit(s, b);
    assert multiset(c) <= multiset(Flatten(s));
    FlattenUpdate(s, b, d);
  }

  /**
   * put's overwrite of record i, the first with key x, of x's chain b: the same overwrite
   * of the chain, every record still in its bucket, x now finding y, every other key
   * finding what it found, and unique keys staying unique.
   */
  lemma {:induction false} OverwriteFirst(s: seq<seq<Entry>>, hash: int -> Int32, x: int, y: int, b: int, i: int)
    requires Hashed(s, hash) && hash(x) != MinInt && b == HashIndex(hash(x), |s|)
    requires 0 <= i < |s[b]| && s[b][i].key == x
    requires forall j :: 0 <= j < i ==> s[b][j].key != x
    ensures Find(Flatten(s), x).Some?
    ensures var t := s[b := s[b][i := Entry(x, y)]];
      && t == s[b := Overwrite(s[b], x, y)]
      && Hashed(t, hash)
      && |Flatten(t)| == |Flatten(s)|
      && Find(Flatten(t), x) == Some(y)
      && (forall k :: k != x ==> Find(Flatten(t), k) == Find(Flatten(s), k))
      && (UniqueKeys(multiset(Flatten(s))) ==> UniqueKeys(multiset(Flatten(t))))
  {
    OverwriteAt(s[b], x, y, i);
    LookupInBucket(s, hash, x);
    Overwritten(s, hash, x, y);
    OverwriteRecords(s, b, i, x, y);
    FlattenMembers(s, s[b][i]);
    if UniqueKeys(multiset(Flatten(s))) {
      ReplaceUnique(multiset(Flatten(s)), s[b][i], Entry(x, y));
    }
  }

  /** add's link of e at the head of its chain keeps every record in its bucket and adds e to the records. */
  lemma {:induction false} Linked(s: seq<seq<Entry>>, hash: int -> Int32, b: int, e: Entry)
    requires Hashed(s, hash) && 0 <= b < |s| && HashIndex(hash(e.key), |s|) == b
    ensures var t := s[b := [e] + s[b]];
      && Hashed(t, hash)
      && |Flatten(t)| == |Flatten(s)| + 1
      && multiset(Flatten(t)) == multiset(Flatten(s)) + multiset{e}
  {
    HashedUpdate(s, hash, b, [e] + s[b]);
    FlattenUpdate(s, b, [e] + s[b]);
  }

  /** remove keeps every record in its bucket and takes one record off the count exactly when one had data v. */
  lemma {:induction false} ShrinkChain(s: seq<seq<Entry>>, hash: int -> Int32, i: int, c: seq<Entry>, v: int)
    requires Hashed(s, hash) && 0 <= i < |s| && c == s[i]
    ensures Hashed(s[i := RemoveFirstData(c, v)], hash)
    ensures |Flatten(s[i := RemoveFirstData(c, v)])| == |Flatten(s)| - (if HasData(c, v) then 1 else 0)
    ensures RemoveFirstData(c, v) == c <==> !HasData(c, v)
  {
    var r := RemoveFirstData(c, v);
    forall e | e in r
      ensures HashIndex(hash(e.key), |s|) == i
    {
      assert e in multiset(r);
      assert e in c;
    }
    HashedUpdate(s, hash, i, r);
    FlattenUpdate(s, i, r);
    if !HasData(c, v) {
      RemoveFirstDataAbsent(c, v);
    }
  }

  /** Record k is the first of the chain whose data is v. */
  predicate FirstWithData(c: seq<Entry>, v: int, k: int)
  {
    0 <= k < |c| && c[k].value == v && forall j :: 0 <= j < k ==> c[j].value != v
  }

  /** With data v present, exactly its first record leaves the chain. */
  lemma {:induction false} RemoveFirstDataIsFirst(c: seq<Entry>, v: int)
    requires HasData(c, v)
    ensures exists k :: FirstWithData(c, v, k) && RemoveFirstData(c, v) == c[..k] + c[k + 1..]
    decreases |c|
  {
    if c[0].value == v {
      RemoveFirstDataAt(c, v, 0);
    } else {
      assert HasData(c[1..], v) by {
        var e :| e in c && e.value == v;
        assert e != c[0];
        assert e in c[1..];
      }
      RemoveFirstDataIsFirst(c[1..], v);
      var k :| FirstWithData(c[1..], v, k) && RemoveFirstData(c[1..], v) == c[1..][..k] + c[1..][k + 1..];
      forall j | 0 <= j < k + 1
        ensures c[j].value != v
      {
        if j > 0 {
          assert c[j] == c[1..][j - 1];
        }
      }
      RemoveFirstDataAt(c, v, k + 1);
    }
  }

  // ---------------------------------------------------------------------------------
  // The table
  // ---------------------------------------------------------------------------------

  // ---------------------------------------------------------------------------------
  // contains and remove compare the argument with the data; the key is what they hash
  // ---------------------------------------------------------------------------------

  /**
   * A chain holding one record, key 1 with data 5: contains(1) and remove(1) look for the
   * data 1, so they answer false and unlink nothing although get(1) finds 5, while
   * contains(5) answers true for a key that is not in the table.
   */
  lemma {:induction false} ContainsComparesData()
    ensures var c := [Entry(1, 5)];
      && Find(c, 1) == Some(5)
      && !HasData(c, 1)
      && RemoveFirstData(c, 1) == c
      && HasData(c, 5) && Find(c, 5).None?
  {
    var c := [Entry(1, 5)];
    assert c[0] in c;
    RemoveFirstDataAbsent(c, 1);
  }

  /** The chain after unlinking its first record with key x. */
  function RemoveFirstKey(c: seq<Entry>, x: int): (r: seq<Entry>)
    ensures multiset(r) <= multiset(c)
    ensures |r| == if Find(c, x).Some? then |c| - 1 else |c|
    decreases |c|
  {
    if c == [] then []
    else if c[0].key == x then
      assert c == [c[0]] + c[1..];
      c[1..]
    else
      assert c == [c[0]] + c[1..];
      [c[0]] + RemoveFirstKey(c[1..], x)
  }

  lemma {:induction false} RemoveFirstKeyAt(c: seq<Entry>, x: int, k: int)
    requires 0 <= k < |c| && c[k].key == x
    requires forall j :: 0 <= j < k ==> c[j].key != x
    ensures RemoveFirstKey(c, x) == c[..k] + c[k + 1..]
    decreases k
  {
    if k == 0 {
      assert c[..0] + c[1..] == c[1..];
    } else {
      var t := c[1..];
      forall j | 0 <= j < k - 1
        ensures t[j].key != x
      {
        assert t[j] == c[j + 1];
      }
      RemoveFirstKeyAt(t, x, k - 1);
      RemoveFirstKeyCons(c, x);
      DropAtCons(c, k);
    }
  }

  lemma {:induction false} RemoveFirstKeyCons(c: seq<Entry>, x: int)
    requires c != [] && c[0].key != x
    ensures RemoveFirstKey(c, x) == [c[0]] + RemoveFirstKey(c[1..], x)
  {
  }

  lemma {:induction false} DropAtCons<T>(c: seq<T>, k: int)
    requires 0 < k < |c|
    ensures c[..k] + c[k + 1..] == [c[0]] + (c[1..][..k - 1] + c[1..][k..])
  {
    assert c[1..][..k - 1] == c[1..k] && c[1..][k..] == c[k + 1..];
    assert c[..k] == [c[0]] + c[1..k];
  }

  lemma {:induction false} RemoveFirstKeyAbsent(c: seq<Entry>, x: int)
    requires Find(c, x).None?
    ensures RemoveFirstKey(c, x) == c
    decreases |c|
  {
    if c != [] {
      RemoveFirstKeyAbsent(c[1..], x);
    }
  }

  /**
   * Unlinking the first record of x leaves every other key finding what it found, and
   * in a chain of unique keys x then finds nothing.
   */
  lemma {:induction false} FindRemoveFirstKey(c: seq<Entry>, x: int, k: int)
    ensures k != x ==> Find(RemoveFirstKey(c, x), k) == Find(c, k)
    ensures k == x && UniqueKeys(multiset(c)) ==> Find(RemoveFirstKey(c, x), k).None?
    decreases |c|
  {
    if c != [] {
      assert c == [c[0]] + c[1..];
      if c[0].key == x {
        if k == x && UniqueKeys(multiset(c)) {
          assert multiset(c)[c[0]] == 1 + multiset(c[1..])[c[0]];
          forall e | e in c[1..]
            ensures e.key != x
          {
            assert e in multiset(c) && c[0] in multiset(c) && e != c[0];
          }
        }
      } else {
        assert multiset(c[1..]) <= multiset(c);
        if UniqueKeys(multiset(c)) {
          UniqueSub(multiset(c), multiset(c[1..]));
        }
        FindRemoveFirstKey(c[1..], x, k);
        assert RemoveFirstKey(c, x) == [c[0]] + RemoveFirstKey(c[1..], x);
      }
    }
  }

  /** The chain surgery of the key-comparing remove: remove's walk with the key in place of the data. */
  method UnlinkKey(chain: seq<Entry>, x: int) returns (rest: seq<Entry>)
    ensures rest == RemoveFirstKey(chain, x)
  {
    rest := chain;
    if chain != [] {
      if chain[0].key == x {
        rest := chain[1..];
      } else {
        var i := 0;
        while i + 1 < |chain| && chain[i + 1].key != x
          invariant 0 <= i < |chain|
          invariant forall j :: 0 <= j <= i ==> chain[j].key != x
        {
          i := i + 1;
        }
        if i + 1 < |chain| && chain[i + 1].key == x {
          RemoveFirstKeyAt(chain, x, i + 1);
          rest := chain[..i + 1] + chain[i + 2..];
        } else {
          assert Find(chain, x).None?;
          RemoveFirstKeyAbsent(chain, x);
        }
      }
    }
  }

  /**
   * The key-comparing remove as a change of the table: every record still in its bucket,
   * one record fewer exactly when x was present, every other key unaffected, and with
   * unique keys x gone and the keys still unique.
   */
  lemma {:induction false} RemovedKey(s: seq<seq<Entry>>, hash: int -> Int32, x: int, b: int)
    requires Hashed(s, hash) && hash(x) != MinInt && b == HashIndex(hash(x), |s|)
    ensures RemoveFirstKey(s[b], x) == s[b] <==> Find(Flatten(s), x).None?
    ensures var t := s[b := RemoveFirstKey(s[b], x)];
      && Hashed(t, hash)
      && |Flatten(t)| == |Flatten(s)| - (if Find(Flatten(s), x).Some? then 1 else 0)
      && (forall k :: k != x ==> Find(Flatten(t), k) == Find(Flatten(s), k))
      && (UniqueKeys(multiset(Flatten(s))) ==> Find(Flatten(t), x).None? && UniqueKeys(multiset(Flatten(t))))
  {
    var c := RemoveFirstKey(s[b], x);
    var t := s[b := c];
    forall e | e in c
      ensures HashIndex(hash(e.key), |s|) == b
    {
      assert e in multiset(c);
    }
    HashedUpdate(s, hash, b, c);
    FlattenUpdate(s, b, c);
    LookupInBucket(s, hash, x);
    if Find(s[b], x).None? {
      RemoveFirstKeyAbsent(s[b], x);
    }
    forall k | k != x
      ensures Find(Flatten(t), k) == Find(Flatten(s), k)
    {
      FindRemoveFirstKey(s[b], x, k);
      FindUpdated(s, b, c, k);
    }
    if UniqueKeys(multiset(Flatten(s))) {
      FlattenSplit(s, b);
      assert multiset(s[b]) <= multiset(Flatten(s));
      UniqueSub(multiset(Flatten(s)), multiset(s[b]));
      FindRemoveFirstKey(s[b], x, x);
      LookupInBucket(t, hash, x);
      assert multiset(Flatten(t)) <= multiset(Flatten(s));
      UniqueSub(multiset(Flatten(s)), multiset(Flatten(t)));
    }
  }

  /** The chain walk of PrintMostFrequent's scan: each record of the chain, from its head, offered to the buffer. */
  method OfferChain(buf: array<Option<Entry>>, chain: seq<Entry>)
    modifies buf
    ensures buf[..] == PlacedAll(old(buf[..]), chain)
  {
    ghost var b0 := buf[..];
    var j := 0;
    while j < |chain|
      invariant 0 <= j <= |chain|
      invariant buf[..] == PlacedAll(b0, chain[..j])
    {
      Place(buf, chain[j]);
      PlacedAllSnoc(b0, chain[..j], chain[j]);
      assert chain[..j + 1] == chain[..j] + [chain[j]];
      j := j + 1;
    }
    assert chain[..j] == chain;
  }

  class HashSet {
    /** The chains. */
    var elementData: array<seq<Entry>>
    /** The number of records. */
    var size: int
    /** hashCode of the key type. */
    const hash: int -> Int32

    /** The records in bucket order, each chain from its head. */
    ghost function Records(): seq<Entry>
      reads this, elementData
    {
      Flatten(elementData[..])
    }

    /** The length passed getPrime's test, every record sits in its bucket, and size counts the records. */
    ghost predicate Valid()
      reads this, elementData
    {
      && PassesPrimeTest(elementData.Length)
      && Hashed(elementData[..], hash)
      && size == |Records()|
    }

    function HashFunction(value: int): (r: int)
      reads this
      requires elementData.Length > 0
      ensures hash(value) != MinInt ==> 0 <= r < elementData.Length
      ensures hash(value) == MinInt ==> r <= 0
    {
      HashIndex(hash(value), elementData.Length)
    }

    constructor (hash: int -> Int32)
      ensures Valid() && Records() == [] && elementData.Length == InitialSize && this.hash == hash
    {
      this.hash := hash;
      elementData := new seq<Entry>[InitialSize](_ => []);
      size := 0;
      new;
      PassesInitialSize();
      FlattenEmpty(elementData[..]);
    }

    method IsEmpty() returns (b: bool)
      requires Valid()
      ensures b <==> Records() == []
    {
      b := size == 0;
    }

    method Size() returns (n: int)
      requires Valid()
      ensures n == |Records()|
    {
      n := size;
    }

    /** get(x): the data of the first record with key x in x's bucket, or null. */
    method Get(x: int) returns (r: Result<Option<int>>)
      requires Valid()
      ensures hash(x) == MinInt ==> r == Failure(IndexOutOfBounds)
      ensures hash(x) != MinInt ==> r == Success(Find(Records(), x))
    {
      HashIndexOfMin(elementData.Length);
      var bucket := HashFunction(x);
      if bucket < 0 {
        return Failure(IndexOutOfBounds);
      }
      LookupInBucket(elementData[..], hash, x);
      var current := elementData[bucket];
      var i := 0;
      while i < |current|
        invariant 0 <= i <= |current|
        invariant Find(current[i..], x) == Find(current, x)
      {
        if current[i].key == x {
          assert current[i..][0] == current[i];
          return Success(Some(current[i].value));
        }
        assert current[i..][1..] == current[i + 1..];
        i := i + 1;
      }
      return Success(None);
    }

    /** contains(value): whether a record in value's bucket holds data equal to value. */
    method Contains(value: int) returns (r: Result<bool>)
      requires Valid()
      ensures hash(value) == MinInt ==> r == Failure(IndexOutOfBounds)
      ensures hash(value) != MinInt ==> r == Success(HasData(elementData[HashFunction(value)], value))
    {
      HashIndexOfMin(elementData.Length);
      var bucket := HashFunction(value);
      if bucket < 0 {
        return Failure(IndexOutOfBounds);
      }
      var current := elementData[bucket];
      var i := 0;
      while i < |current|
        invariant 0 <= i <= |current|
        invariant forall j :: 0 <= j < i ==> current[j].value != value
      {
        if current[i].value == value {
          return Success(true);
        }
        i := i + 1;
      }
      return Success(false);
    }

    /** remove(value): unlinks the first record in value's bucket whose data equals value. */
    method Remove(value: int) returns (r: Outcome)
      requires Valid()
      modifies this, elementData
      ensures Valid() && elementData == old(elementData)
      ensures hash(value) == MinInt ==> r == Fail(IndexOutOfBounds) && elementData[..] == old(elementData[..]) && size == old(size)
      ensures hash(value) != MinInt ==> r == Pass
      ensures hash(value) != MinInt ==> elementData[..] == old(elementData[..])[HashFunction(value) := RemoveFirstData(old(elementData[HashFunction(value)]), value)]
      ensures hash(value) != MinInt ==> size == old(size) - (if HasData(old(elementData[HashFunction(value)]), value) then 1 else 0)
    {
      HashIndexOfMin(elementData.Length);
      var bucket := HashFunction(value);
      if bucket < 0 {
        return Fail(IndexOutOfBounds);
      }
      ghost var s := elementData[..];
      var chain := elementData[bucket];
      var rest := Unlink(chain, value);
      ShrinkChain(s, hash, bucket, chain, value);
      if rest != chain {
        elementData[bucket] := rest;
        size := size - 1;
      }
      assert elementData[..] == s[bucket := RemoveFirstData(chain, value)];
      r := Pass;
    }

    /** contains as evidently intended: whether a record in x's bucket has the key x. */
    method ContainsKey(x: int) returns (r: Result<bool>)
      requires Valid()
      ensures hash(x) == MinInt ==> r == Failure(IndexOutOfBounds)
      ensures hash(x) != MinInt ==> r == Success(Find(Records(), x).Some?)
    {
      HashIndexOfMin(elementData.Length);
      var bucket := HashFunction(x);
      if bucket < 0 {
        return Failure(IndexOutOfBounds);
      }
      LookupInBucket(elementData[..], hash, x);
      var current := elementData[bucket];
      var i := 0;
      while i < |current|
        invariant 0 <= i <= |current|
        invariant Find(current[i..], x) == Find(current, x)
      {
        if current[i].key == x {
          assert current[i..][0] == current[i];
          return Success(true);
        }
        assert current[i..][1..] == current[i + 1..];
        i := i + 1;
      }
      return Success(false);
    }

    /** remove as evidently intended: unlinks the first record in x's bucket whose key is x. */
    method RemoveKey(x: int) returns (r: Outcome)
      requires Valid()
      modifies this, elementData
      ensures Valid() && elementData == old(elementData)
      ensures hash(x) == MinInt ==> r == Fail(IndexOutOfBounds) && elementData[..] == old(elementData[..]) && size == old(size)
      ensures hash(x) != MinInt ==> r == Pass
      ensures hash(x) != MinInt ==> elementData[..] == old(elementData[..])[HashFunction(x) := RemoveFirstKey(old(elementData[HashFunction(x)]), x)]
      ensures hash(x) != MinInt ==> size == old(size) - (if old(Find(Records(), x)).Some? then 1 else 0)
      ensures hash(x) != MinInt ==> forall k :: k != x ==> Find(Records(), k) == old(Find(Records(), k))
      ensures hash(x) != MinInt && old(UniqueKeys(multiset(Records()))) ==> Find(Records(), x).None? && UniqueKeys(multiset(Records()))
    {
      HashIndexOfMin(elementData.Length);
      var bucket := HashFunction(x);
      if bucket < 0 {
        return Fail(IndexOutOfBounds);
      }
      ghost var s := elementData[..];
      var chain := elementData[bucket];
      var rest := UnlinkKey(chain, x);
      RemovedKey(s, hash, x, bucket);
      if rest != chain {
        elementData[bucket] := rest;
        size := size - 1;
      }
      assert elementData[..] == s[bucket := RemoveFirstKey(chain, x)];
      r := Pass;
    }

    /**
     * put(x, y): overwrites the data of the first record with key x in x's bucket, or
     * adds a new record when the chain has none.
     */
    method Put(x: int, y: int) returns (r: Outcome)
      requires Valid() && size < 0x3000_0000
      modifies this, elementData
      ensures Valid()
      ensures hash(x) == MinInt ==> r == Fail(IndexOutOfBounds) && elementData == old(elementData) && elementData[..] == old(elementData[..]) && size == old(size)
      ensures hash(x) != MinInt ==> r == Pass && Find(Records(), x) == Some(y)
      ensures hash(x) != MinInt && Find(old(Records()), x).Some? ==> elementData == old(elementData) && size == old(size)
      ensures hash(x) != MinInt && Find(old(Records()), x).Some? ==>
        elementData[..] == old(elementData[..])[HashFunction(x) := Overwrite(old(elementData[HashFunction(x)]), x, y)]
      ensures hash(x) != MinInt && Find(old(Records()), x).None? ==>
        multiset(Records()) == old(multiset(Records())) + multiset{Entry(x, y)} && size == old(size) + 1
      ensures hash(x) != MinInt && (Find(old(Records()), x).Some? || UniqueKeys(old(multiset(Records())))) ==>
        forall k :: k != x ==> Find(Records(), k) == old(Find(Records(), k))
      ensures hash(x) != MinInt && UniqueKeys(old(multiset(Records()))) ==> UniqueKeys(multiset(Records()))
    {
      HashIndexOfMin(elementData.Length);
      var bucket := HashFunction(x);
      if bucket < 0 {
        return Fail(IndexOutOfBounds);
      }
      LookupInBucket(elementData[..], hash, x);
      var temp := elementData[bucket];
      var i := 0;
      while i < |temp|
        invariant 0 <= i <= |temp|
        invariant forall j :: 0 <= j < i ==> temp[j].key != x
      {
        if temp[i].key == x {
          OverwriteFirst(elementData[..], hash, x, y, bucket, i);
          elementData[bucket] := temp[i := Entry(x, y)];
          return Pass;
        }
        i := i + 1;
      }
      assert Find(temp, x).None?;
      ghost var before := Records();
      r := Add(x, y);
      FindNewKey(before, Records(), x, y);
    }

    /**
     * add(key, value): rehashes first when size / length is at least 0.75, which for
     * ints is 4 * size >= 3 * length, then links a new record at the head of the key's
     * chain, whether or not the key is already present.
     */
    method Add(key: int, value: int) returns (r: Outcome)
      requires Valid() && size < 0x3000_0000
      modifies this, elementData
      ensures Valid()
      ensures r.Pass? <==> hash(key) != MinInt
      ensures r.Fail? ==> r.error == IndexOutOfBounds && multiset(Records()) == old(multiset(Records())) && size == old(size)
      ensures r.Pass? ==> multiset(Records()) == old(multiset(Records())) + multiset{Entry(key, value)} && size == old(size) + 1
      ensures 4 * old(size) < 3 * old(elementData.Length) ==> elementData == old(elementData)
      ensures 4 * old(size) < 3 * old(elementData.Length) && r.Pass? ==>
        elementData[..] == old(elementData[..])[HashFunction(key) := [Entry(key, value)] + old(elementData[HashFunction(key)])]
      ensures 4 * old(size) < 3 * old(elementData.Length) && r.Fail? ==> elementData[..] == old(elementData[..])
      ensures 4 * old(size) >= 3 * old(elementData.Length) ==> fresh(elementData)
      ensures r.Pass? && (4 * old(size) < 3 * old(elementData.Length) || 4 * old(size) < 3 * LargestPassing(2 * old(elementData.Length) - 1)) ==>
        4 * (size - 1) < 3 * elementData.Length
      decreases 3 * size + 2
    {
      if 4 * size >= 3 * elementData.Length {
        Rehash();
      }
      HashIndexOfMin(elementData.Length);
      var bucket := HashFunction(key);
      if bucket < 0 {
        return Fail(IndexOutOfBounds);
      }
      ghost var s := elementData[..];
      Linked(s, hash, bucket, Entry(key, value));
      elementData[bucket] := [Entry(key, value)] + elementData[bucket];
      size := size + 1;
      assert elementData[..] == s[bucket := [Entry(key, value)] + s[bucket]];
      r := Pass;
    }

    /**
     * rehash(): a new array of getPrime(length) empty chains, size reset to 0, and every
     * old record added again through add, bucket by bucket and each chain from its head.
     */
    method Rehash()
      requires Valid() && 4 * size >= 3 * elementData.Length && size <= 0x3000_0000
      modifies this
      ensures Valid() && fresh(elementData)
      ensures size == old(size) && multiset(Records()) == old(multiset(Records()))
      ensures 4 * (old(size) - 1) < 3 * LargestPassing(2 * old(elementData.Length) - 1) ==>
        elementData.Length == LargestPassing(2 * old(elementData.Length) - 1)
      decreases 3 * size + 1
    {
      var oldElementData := elementData;
      ghost var olds := elementData[..];
      ghost var total := multiset(Records());
      ghost var count := size;
      assert Hashed(olds, hash);
      HashIndexOfMin(|olds|);
      var capacity := GetPrime(elementData.Length);
      elementData := new seq<Entry>[capacity](_ => []);
      size := 0;
      FlattenEmpty(elementData[..]);
      var i := 0;
      while i < oldElementData.Length
        invariant 0 <= i <= oldElementData.Length
        invariant Valid() && fresh(elementData)
        invariant oldElementData[..] == olds
        invariant multiset(Records()) + multiset(Flatten(olds[i..])) == total
        invariant size + |Flatten(olds[i..])| == count
        invariant elementData.Length == capacity || 4 * (count - 1) >= 3 * capacity
      {
        FlattenSuffix(olds, i);
        AddAll(oldElementData[i], capacity, count);
        i := i + 1;
      }
    }

    /** The inner loop of rehash: every record of one old chain, from its head, added again. */
    method AddAll(chain: seq<Entry>, ghost capacity: int, ghost count: int)
      requires Valid() && size + |chain| <= count <= 0x3000_0000
      requires forall e :: e in chain ==> hash(e.key) != MinInt
      requires elementData.Length == capacity || 4 * (count - 1) >= 3 * capacity
      modifies this, elementData
      ensures Valid() && (elementData == old(elementData) || fresh(elementData))
      ensures multiset(Records()) == old(multiset(Records())) + multiset(chain)
      ensures size == old(size) + |chain|
      ensures elementData.Length == capacity || 4 * (count - 1) >= 3 * capacity
      decreases 3 * (size + |chain|)
    {
      ghost var start := multiset(Records());
      ghost var added: multiset<Entry> := multiset{};
      var j := 0;
      while j < |chain|
        invariant 0 <= j <= |chain|
        invariant Valid() && (elementData == old(elementData) || fresh(elementData))
        invariant added == multiset(chain[..j])
        invariant multiset(Records()) == start + added
        invariant size == old(size) + j
        invariant elementData.Length == capacity || 4 * (count - 1) >= 3 * capacity
      {
        var e := chain[j];
        assert chain[..j + 1] == chain[..j] + [e];
        var ignored := Add(e.key, e.value);
        added := added + multiset{e};
        j := j + 1;
      }
      assert chain[..j] == chain;
    }

    /** toString: the records bucket by bucket, each chain from its head; "{}" when empty. */
    method ToString() returns (r: seq<Entry>)
      requires Valid()
      ensures r == Records() && |r| == size
    {
      ghost var s := elementData[..];
      r := [];
      if size != 0 {
        var i := 0;
        while i < elementData.Length
          invariant 0 <= i <= elementData.Length
          invariant r == Flatten(s[..i])
        {
          var current := elementData[i];
          var j := 0;
          while j < |current|
            invariant 0 <= j <= |current|
            invariant r == Flatten(s[..i]) + current[..j]
          {
            WalkStep(s, i, j);
            r := r + [current[j]];
            j := j + 1;
          }
          WalkNext(s, i);
          i := i + 1;
        }
        WalkDone(s);
      }
    }

    /**
     * findMinValue: starts from the head of bucket 0 (null when that chain is empty) and
     * walks all records, taking the first one while it has none and then every record
     * whose data is strictly smaller.
     */
    method FindMinValue() returns (r: Option<Entry>)
      requires Valid()
      ensures r.None? <==> Records() == []
      ensures r.Some? ==> r.val == FirstMinimum(Records()[0], Records())
      ensures r.Some? ==> r.val in Records() && forall e :: e in Records() ==> r.val.value <= e.value
    {
      ghost var s := elementData[..];
      ghost var all := Flatten(s);
      assert all == s[0] + Flatten(s[1..]);
      r := if elementData[0] != [] then Some(elementData[0][0]) else None;
      ghost var seen: seq<Entry> := [];
      var i := 0;
      while i < elementData.Length
        invariant 0 <= i <= elementData.Length
        invariant seen == Flatten(s[..i])
        invariant r.None? <==> seen == [] && s[0] == []
        invariant r.Some? ==> all != [] && r.val == FirstMinimum(all[0], seen)
      {
        var temp := elementData[i];
        var j := 0;
        while j < |temp|
          invariant 0 <= j <= |temp|
          invariant seen == Flatten(s[..i]) + temp[..j]
          invariant r.None? <==> seen == [] && s[0] == []
          invariant r.Some? ==> all != [] && r.val == FirstMinimum(all[0], seen)
        {
          FlattenWalk(s, i, j);
          WalkStep(s, i, j);
          if r.None? {
            r := Some(temp[j]);
          }
          if temp[j].value < r.val.value {
            r := Some(temp[j]);
          }
          FirstMinimumAppend(all[0], seen, [temp[j]]);
          seen := seen + [temp[j]];
          j := j + 1;
        }
        WalkNext(s, i);
        i := i + 1;
      }
      WalkDone(s);
      if r.Some? {
        FirstMinimumOfAll(all);
      }
    }

    /** The scan of PrintMostFrequent: every record, bucket by bucket, is offered to the buffer. */
    method FillMostFrequent(buf: array<Option<Entry>>)
      modifies buf
      ensures buf[..] == PlacedAll(old(buf[..]), Records())
    {
      ghost var s := elementData[..];
      ghost var b0 := buf[..];
      var i := 0;
      while i < elementData.Length
        invariant 0 <= i <= elementData.Length
        invariant buf[..] == PlacedAll(b0, Flatten(s[..i]))
      {
        ghost var b1 := buf[..];
        OfferChain(buf, elementData[i]);
        PlacedAllAppend(b0, Flatten(s[..i]), s[i]);
        FlattenPrefix(s, i);
        i := i + 1;
      }
      WalkDone(s);
    }

    /**
     * PrintMostFrequent(n): slot n-1 of an n-slot buffer gets findMinValue(), every record
     * is offered, and the slots are printed from slot 0 without a null check, so any
     * empty slot -- an empty table, or n above the record count plus one -- is a
     * NullPointerException.
     */
    method PrintMostFrequent(n: int) returns (r: Result<seq<Entry>>)
      requires Valid()
      ensures n < 0 ==> r == Failure(NegativeArraySize)
      ensures n == 0 ==> r == Failure(IndexOutOfBounds)
      ensures n >= 1 && Records() == [] ==> r == Failure(NullPointer)
      ensures n >= 1 && Records() != [] && n > |Records()| + 1 ==> r == Failure(NullPointer)
      ensures n >= 1 && Records() != [] && n <= |Records()| + 1 ==> (r.Success? &&
        var m := FirstMinimum(Records()[0], Records());
        r.value == Values(PlacedAll(Seed(n, m), Records())) && TopOf(r.value, n, multiset{m} + multiset(Records())))
    {
      if n < 0 {
        return Failure(NegativeArraySize);
      }
      var a := new Option<Entry>[n](_ => None);
      if n == 0 {
        return Failure(IndexOutOfBounds);
      }
      var min := FindMinValue();
      a[n - 1] := min;
      ghost var seeded := a[..];
      FillMostFrequent(a);
      if min.None? {
        assert Records() == [];
        return Failure(NullPointer);
      }
      var m := min.val;
      assert seeded == Seed(n, m);
      Report(n, m, Records());
      SeedShape(n, m);
      PlacedAllWellFormed(Seed(n, m), Records());
      FullIffSlot0(a[..]);
      assert multiset([m] + Records()) == multiset{m} + multiset(Records());
      if a[0].None? {
        return Failure(NullPointer);
      }
      r := Success(Values(a[..]));
    }
  }
}
