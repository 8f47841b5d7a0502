/**
 * Sequences of key/value records searched by key, shared by the hash table and the heap:
 * the first record of a key, the overwrite a put performs on it, and the uniqueness of
 * keys that a container filled only by put keeps.
 */
module Records {
  import opened Common

  /** The data of the first record of `s` with key x, if any: what a get on key x answers. */
  function Find(s: seq<Entry>, x: int): (r: Option<int>)
    ensures r.None? <==> forall e :: e in s ==> e.key != x
    ensures r.Some? ==> Entry(x, r.val) in s
    decreases |s|
  {
    if s == [] then None
    else if s[0].key == x then Some(s[0].value)
    else Find(s[1..], x)
  }

  /** Find returns the data of the first record with key x. */
  lemma {:induction false} FindIsFirst(s: seq<Entry>, x: int)
    requires Find(s, x).Some?
    ensures exists i :: 0 <= i < |s| && s[i] == Entry(x, Find(s, x).val) && forall j :: 0 <= j < i ==> s[j].key != x
    decreases |s|
  {
    if s[0].key != x {
      FindIsFirst(s[1..], x);
      var i :| 0 <= i < |s[1..]| && s[1..][i] == Entry(x, Find(s, x).val) && forall j :: 0 <= j < i ==> s[1..][j].key != x;
      assert s[i + 1] == Entry(x, Find(s, x).val);
      forall j | 0 <= j < i + 1
        ensures s[j].key != x
      {
        if j > 0 {
          assert s[j] == s[1..][j - 1];
        }
      }
    } else {
      assert s[0] == Entry(x, Find(s, x).val);
    }
  }

  lemma {:induction false} FindAppend(p: seq<Entry>, q: seq<Entry>, x: int)
    ensures Find(p + q, x) == if Find(p, x).Some? then Find(p, x) else Find(q, x)
    decreases |p|
  {
    if p == [] {
      assert p + q == q;
    } else {
      assert (p + q)[0] == p[0];
      assert (p + q)[1..] == p[1..] + q;
      FindAppend(p[1..], q, x);
    }
  }

  /** The records after a put overwrote the data of the first record with key x. */
  function Overwrite(c: seq<Entry>, x: int, y: int): (r: seq<Entry>)
    ensures |r| == |c|
    ensures forall e :: e in r ==> e in c || e == Entry(x, y)
    decreases |c|
  {
    if c == [] then []
    else if c[0].key == x then [Entry(x, y)] + c[1..]
    else [c[0]] + Overwrite(c[1..], x, y)
  }

  /** After the overwrite, x finds y and every other key finds what it found before. */
  lemma {:induction false} FindOverwrite(c: seq<Entry>, x: int, y: int, k: int)
    ensures Find(Overwrite(c, x, y), k) == if k == x && Find(c, x).Some? then Some(y) else Find(c, k)
    decreases |c|
  {
    if c != [] && c[0].key != x {
      FindOverwrite(c[1..], x, y, k);
      assert ([c[0]] + Overwrite(c[1..], x, y))[1..] == Overwrite(c[1..], x, y);
    } else if c != [] {
      assert ([Entry(x, y)] + c[1..])[1..] == c[1..];
    }
  }

  /** A put's scan stops at the first record with key x and overwrites it in place. */
  lemma {:induction false} OverwriteAt(c: seq<Entry>, x: int, y: int, i: int)
    requires 0 <= i < |c| && c[i].key == x
    requires forall j :: 0 <= j < i ==> c[j].key != x
    ensures Overwrite(c, x, y) == c[i := Entry(x, y)]
    decreases i
  {
    if i > 0 {
      OverwriteAt(c[1..], x, y, i - 1);
      assert c[i := Entry(x, y)] == [c[0]] + c[1..][i - 1 := Entry(x, y)];
    }
  }

  /**
   * Overwriting the first record with key x, found at position j: x finds y, every
   * other key finds what it found, and unique keys stay unique.
   */
  lemma {:induction false} OverwriteFirstAt(s: seq<Entry>, j: int, x: int, y: int)
    requires 0 <= j < |s| && s[j].key == x && forall k :: 0 <= k < j ==> s[k].key != x
    ensures Find(s, x).Some? && Overwrite(s, x, y) == s[j := Entry(x, y)]
    ensures Find(Overwrite(s, x, y), x) == Some(y)
    ensures forall k :: k != x ==> Find(Overwrite(s, x, y), k) == Find(s, k)
    ensures UniqueKeys(multiset(s)) ==> UniqueKeys(multiset(Overwrite(s, x, y)))
  {
    assert s[j] in s;
    OverwriteAt(s, x, y, j);
    FindOverwrite(s, x, y, x);
    forall k | k != x
      ensures Find(Overwrite(s, x, y), k) == Find(s, k)
    {
      FindOverwrite(s, x, y, k);
    }
    MultisetReplace(s, j, Entry(x, y));
    if UniqueKeys(multiset(s)) {
      ReplaceUnique(multiset(s), s[j], Entry(x, y));
    }
  }

  /** Replacing one record by another with the same key keeps the keys unique. */
  lemma {:induction false} ReplaceUnique(m: multiset<Entry>, o: Entry, e: Entry)
    requires UniqueKeys(m) && o in m && o.key == e.key
    ensures UniqueKeys(m - multiset{o} + multiset{e})
  {
    var t := m - multiset{o} + multiset{e};
    forall d
      ensures t[d] <= 1
    {
      if d == e && e in m {
        assert e == o;
      }
    }
    forall e1, e2 | e1 in t && e2 in t && e1.key == e2.key
      ensures e1 == e2
    {
      assert e1 == e || (e1 in m && e1 != o);
      assert e2 == e || (e2 in m && e2 != o);
    }
  }

  /** No two records share a key, and none is stored twice: what a container filled only by put keeps. */
  ghost predicate UniqueKeys(m: multiset<Entry>)
  {
    && (forall e :: m[e] <= 1)
    && (forall e1, e2 :: e1 in m && e2 in m && e1.key == e2.key ==> e1 == e2)
  }

  /** No key occurs twice along `s`, stated position by position. */
  ghost predicate DistinctKeys(s: seq<Entry>)
    decreases |s|
  {
    s == [] || ((forall k :: 1 <= k < |s| ==> s[k].key != s[0].key) && DistinctKeys(s[1..]))
  }

  /** Distinct keys along a sequence are unique keys of its multiset of records, and back. */
  lemma {:induction false} DistinctKeysUnique(s: seq<Entry>)
    ensures DistinctKeys(s) <==> UniqueKeys(multiset(s))
  {
    if DistinctKeys(s) {
      DistinctToUnique(s);
    }
    if UniqueKeys(multiset(s)) {
      UniqueToDistinct(s);
    }
  }

  lemma {:induction false} DistinctToUnique(s: seq<Entry>)
    requires DistinctKeys(s)
    ensures UniqueKeys(multiset(s))
    decreases |s|
  {
    if s != [] {
      var t := s[1..];
      assert s == [s[0]] + t;
      DistinctToUnique(t);
      var m := multiset(s);
      assert m == multiset{s[0]} + multiset(t);
      forall e | e in t
        ensures e.key != s[0].key
      {
        var k :| 0 <= k < |t| && t[k] == e;
        assert s[k + 1] == e;
      }
      assert multiset(t)[s[0]] == 0;
      forall e1, e2 | e1 in m && e2 in m && e1.key == e2.key
        ensures e1 == e2
      {
        assert e1 == s[0] || e1 in multiset(t);
        assert e2 == s[0] || e2 in multiset(t);
      }
    }
  }

  lemma {:induction false} UniqueToDistinct(s: seq<Entry>)
    requires UniqueKeys(multiset(s))
    ensures DistinctKeys(s)
    decreases |s|
  {
    if s != [] {
      var t := s[1..];
      assert s == [s[0]] + t;
      var m := multiset(s);
      assert m == multiset{s[0]} + multiset(t);
      UniqueSub(m, multiset(t));
      UniqueToDistinct(t);
      assert multiset(t)[s[0]] == m[s[0]] - 1;
      forall k | 1 <= k < |s|
        ensures s[k].key != s[0].key
      {
        assert s[k] == t[k - 1] && s[k] in multiset(t);
        assert s[k] != s[0];
      }
    }
  }

  /** With unique keys the first record of k is determined by the multiset of records alone. */
  lemma {:induction false} FindByContents(s: seq<Entry>, t: seq<Entry>, k: int)
    requires UniqueKeys(multiset(t))
    requires forall v :: Entry(k, v) in multiset(s) <==> Entry(k, v) in multiset(t)
    ensures Find(s, k) == Find(t, k)
  {
    if Find(s, k).Some? {
      assert Entry(k, Find(s, k).val) in multiset(s);
      assert Find(t, k).Some?;
      assert Entry(k, Find(t, k).val) in multiset(t);
    }
    if Find(t, k).Some? {
      assert Entry(k, Find(t, k).val) in multiset(t);
      assert Entry(k, Find(t, k).val) in s;
    }
  }

  /** A record added under a key no record had is the one the key then finds. */
  lemma {:induction false} FindNewKey(s: seq<Entry>, t: seq<Entry>, x: int, y: int)
    requires Find(s, x).None?
    requires multiset(t) == multiset(s) + multiset{Entry(x, y)}
    ensures Find(t, x) == Some(y)
    ensures UniqueKeys(multiset(s)) ==> UniqueKeys(multiset(t))
    ensures UniqueKeys(multiset(s)) ==> forall k :: k != x ==> Find(t, k) == Find(s, k)
  {
    assert Entry(x, y) in multiset(t);
    assert Find(t, x).Some?;
    var v := Find(t, x).val;
    assert Entry(x, v) in multiset(t);
    assert Entry(x, v) !in multiset(s);
    if UniqueKeys(multiset(s)) {
      assert UniqueKeys(multiset(t)) by {
        forall e
          ensures multiset(t)[e] <= 1
        {
          if e == Entry(x, y) {
            assert e !in multiset(s);
          }
        }
        forall e1, e2 | e1 in multiset(t) && e2 in multiset(t) && e1.key == e2.key
          ensures e1 == e2
        {
          if e1.key == x {
            assert e1 !in multiset(s) && e2 !in multiset(s);
          }
        }
      }
      forall k | k != x
        ensures Find(t, k) == Find(s, k)
      {
        FindByContents(s, t, k);
      }
    }
  }

  /** Fewer records keep unique keys. */
  lemma {:induction false} UniqueSub(m: multiset<Entry>, n: multiset<Entry>)
    requires UniqueKeys(m) && n <= m
    ensures UniqueKeys(n)
  {
    forall e
      ensures n[e] <= 1
    {
      assert n[e] <= m[e];
    }
  }

  /** Replacing the record at position i changes the multiset of records by exactly that record. */
  lemma {:induction false} MultisetReplace(c: seq<Entry>, i: int, e: Entry)
    requires 0 <= i < |c|
    ensures multiset(c[i := e]) == multiset(c) - multiset{c[i]} + multiset{e}
  {
    assert c == c[..i] + [c[i]] + c[i + 1..];
    assert c[i := e] == c[..i] + [e] + c[i + 1..];
  }
}
