/**
 * The word-frequency list of the text comparison program: one record per distinct word,
 * counting its occurrences in two books. New words are prepended; `sort` bubble-sorts the
 * records by the difference of their two counts, largest difference first, by exchanging
 * node contents. The list is modelled by the sequence of its records, head first.
 */
module WordFrequency {
  import opened Common

  /** The longest word a node holds (its buffer has one more byte, for the terminator). */
  const WORD_COUNT := 30

  /** A node's contents: the word and its counts in the two books. */
  datatype Record = Record(word: string, badge: int, little: int)

  /** get_dif: how far apart a word's two counts are. */
  function Dif(r: Record): (d: int)
    ensures d >= 0
    ensures d == r.badge - r.little || d == r.little - r.badge
  {
    if r.badge >= r.little then r.badge - r.little else r.little - r.badge
  }

  /** No word has two records, and every word fits a node's buffer. */
  ghost predicate WellFormed(s: seq<Record>)
  {
    (forall i, j :: 0 <= i < j < |s| ==> s[i].word != s[j].word)
    && (forall i :: 0 <= i < |s| ==> |s[i].word| <= WORD_COUNT)
  }

  /** The index of the first record of `w`, or None: the node find returns, or NULL. */
  function IndexOf(s: seq<Record>, w: string): (r: Option<nat>)
    ensures r.Some? ==> r.val < |s| && s[r.val].word == w
    ensures r.Some? ==> forall j :: 0 <= j < r.val ==> s[j].word != w
    ensures r.None? <==> forall j :: 0 <= j < |s| ==> s[j].word != w
    decreases |s|
  {
    if s == [] then None
    else if s[0].word == w then Some(0)
    else match IndexOf(s[1..], w)
      case None => None
      case Some(i) => Some(i + 1)
  }

  /** One more occurrence of the word in the book `whichfile` (0 for the first, anything else the second). */
  function Bump(r: Record, whichfile: int): Record
  {
    if whichfile == 0 then r.(badge := r.badge + 1) else r.(little := r.little + 1)
  }

  /** add: increment the word's record, prepending a record with zero counts first when it has none. */
  function AddWord(s: seq<Record>, w: string, whichfile: int): (r: seq<Record>)
    ensures |r| == if IndexOf(s, w).None? then |s| + 1 else |s|
    ensures IndexOf(r, w).Some?
  {
    match IndexOf(s, w)
    case None => [Bump(Record(w, 0, 0), whichfile)] + s
    case Some(i) =>
      var r := s[i := Bump(s[i], whichfile)];
      assert r[i].word == w;
      r
  }

  /** How often `w` has been counted in the book `whichfile`. */
  function CountOf(s: seq<Record>, w: string, whichfile: int): int
  {
    match IndexOf(s, w)
    case None => 0
    case Some(i) => if whichfile == 0 then s[i].badge else s[i].little
  }

  /** A new word gets one new record at the head, counted once in its book; the old records follow unchanged. */
  lemma {:induction false} AddWordAbsent(s: seq<Record>, w: string, whichfile: int)
    requires IndexOf(s, w).None?
    ensures var r := AddWord(s, w, whichfile);
      |r| == |s| + 1 && r[1..] == s && r[0].word == w
      && r[0].badge == (if whichfile == 0 then 1 else 0) && r[0].little == (if whichfile == 0 then 0 else 1)
  {
    var r := AddWord(s, w, whichfile);
    assert r == [Bump(Record(w, 0, 0), whichfile)] + s;
  }

  /** A known word adds no record: its count in the named book goes up by one and nothing else changes. */
  lemma {:induction false} AddWordPresent(s: seq<Record>, w: string, whichfile: int)
    requires IndexOf(s, w).Some?
    ensures var i := IndexOf(s, w).val; var r := AddWord(s, w, whichfile);
      |r| == |s| && (forall j :: 0 <= j < |s| && j != i ==> r[j] == s[j])
      && r[i].word == w
      && r[i].badge == s[i].badge + (if whichfile == 0 then 1 else 0)
      && r[i].little == s[i].little + (if whichfile == 0 then 0 else 1)
  {
  }

  /** add keeps one record per word, when the word fits a node. */
  lemma {:induction false} AddWordKeeps(s: seq<Record>, w: string, whichfile: int)
    requires WellFormed(s) && |w| <= WORD_COUNT
    ensures WellFormed(AddWord(s, w, whichfile))
    ensures IndexOf(AddWord(s, w, whichfile), w).Some?
  {
    var r := AddWord(s, w, whichfile);
    match IndexOf(s, w)
    case None =>
      assert r == [Bump(Record(w, 0, 0), whichfile)] + s;
      assert r[0].word == w;
    case Some(i) =>
      assert r[i].word == w;
  }

  /** Two lists with the same words at the same places find every word at the same place. */
  lemma {:induction false} IndexOfSameWords(s: seq<Record>, r: seq<Record>, v: string)
    requires |s| == |r| && forall j :: 0 <= j < |s| ==> s[j].word == r[j].word
    ensures IndexOf(s, v) == IndexOf(r, v)
  {
    if IndexOf(s, v).Some? {
      assert r[IndexOf(s, v).val].word == v;
    }
    if IndexOf(r, v).Some? {
      assert s[IndexOf(r, v).val].word == v;
    }
  }

  /** Adding a word raises its count in its book by one and leaves every other count alone. */
  lemma {:induction false} AddWordCounts(s: seq<Record>, w: string, whichfile: int, v: string, f: int)
    ensures CountOf(AddWord(s, w, whichfile), v, f)
      == CountOf(s, v, f) + (if v == w && (f == 0) == (whichfile == 0) then 1 else 0)
  {
    var r := AddWord(s, w, whichfile);
    match IndexOf(s, w)
    case None =>
      assert r == [Bump(Record(w, 0, 0), whichfile)] + s;
      if v == w {
        assert IndexOf(r, v) == Some(0);
      } else {
        assert r[1..] == s;
        assert IndexOf(r, v) == (match IndexOf(s, v) case None => None case Some(k) => Some(k + 1));
      }
    case Some(i) =>
      assert r == s[i := Bump(s[i], whichfile)];
      IndexOfSameWords(s, r, v);
      if IndexOf(s, v).Some? && IndexOf(s, v).val != i {
        assert r[IndexOf(s, v).val] == s[IndexOf(s, v).val];
      }
  }

  /** The words of one book added in order, as load does. */
  function AddEach(s: seq<Record>, words: seq<string>, whichfile: int): seq<Record>
    decreases |words|
  {
    if words == [] then s else AddEach(AddWord(s, words[0], whichfile), words[1..], whichfile)
  }

  /** How many times `v` occurs in `words`. */
  function Occurrences(words: seq<string>, v: string): nat
    decreases |words|
  {
    if words == [] then 0 else (if words[0] == v then 1 else 0) + Occurrences(words[1..], v)
  }

  /**
   * After a book's words are added, each word's count in that book has grown by exactly its
   * number of occurrences, and the other book's counts are as they were.
   */
  lemma {:induction false} AddEachCounts(s: seq<Record>, words: seq<string>, whichfile: int, v: string)
    requires WellFormed(s) && forall k :: 0 <= k < |words| ==> |words[k]| <= WORD_COUNT
    ensures WellFormed(AddEach(s, words, whichfile))
    ensures CountOf(AddEach(s, words, whichfile), v, whichfile) == CountOf(s, v, whichfile) + Occurrences(words, v)
    ensures var other := if whichfile == 0 then 1 else 0;
      CountOf(AddEach(s, words, whichfile), v, other) == CountOf(s, v, other)
    decreases |words|
  {
    if words != [] {
      var s1 := AddWord(s, words[0], whichfile);
      AddWordKeeps(s, words[0], whichfile);
      AddWordCounts(s, words[0], whichfile, v, whichfile);
      AddWordCounts(s, words[0], whichfile, v, if whichfile == 0 then 1 else 0);
      AddEachCounts(s1, words[1..], whichfile, v);
    }
  }

  /** Every record from index m on has a difference no larger than any record before it. */
  ghost predicate Settled(s: seq<Record>, m: int)
  {
    forall a, b :: 0 <= a < b < |s| && m <= b ==> Dif(s[a]) >= Dif(s[b])
  }

  /** The differences do not increase along the list: sort's result. */
  ghost predicate NonIncreasing(s: seq<Record>)
  {
    forall a, b :: 0 <= a < b < |s| ==> Dif(s[a]) >= Dif(s[b])
  }

  /** What a pass over the list exchanges at the node j, given its progress so far. */
  function PassStep(s: seq<Record>, j: int): seq<Record>
    requires 0 <= j < |s| - 1
  {
    if Dif(s[j]) < Dif(s[j + 1]) then s[j := s[j + 1]][j + 1 := s[j]] else s
  }

  /** The least difference of s[..j + 1] sits at j. */
  ghost predicate LeastAt(s: seq<Record>, j: int)
    requires 0 <= j < |s|
  {
    forall k :: 0 <= k <= j ==> Dif(s[k]) >= Dif(s[j])
  }

  /**
   * Pass i of the bubble sort at node j: before the target node m = |s| - i - 1 the least
   * difference so far travels with j; from m on nothing is exchanged and the records from m
   * on are settled.
   */
  lemma {:induction false} PassStepKeeps(s: seq<Record>, i: int, j: int)
    requires 0 <= i < |s| && 0 <= j < |s| - 1 && Settled(s, |s| - i)
    requires j <= |s| - i - 1 ==> LeastAt(s, j)
    requires j >= |s| - i - 1 ==> Settled(s, |s| - i - 1)
    ensures var t := PassStep(s, j);
      Settled(t, |s| - i) && (j + 1 <= |s| - i - 1 ==> LeastAt(t, j + 1))
      && (j + 1 >= |s| - i - 1 ==> Settled(t, |s| - i - 1))
  {
    var m := |s| - i - 1;
    var t := PassStep(s, j);
    if j < m {
      forall a, b | 0 <= a < b < |t| && |s| - i <= b ensures Dif(t[a]) >= Dif(t[b]) {
        var a' := if a == j then j + 1 else if a == j + 1 then j else a;
        assert Dif(t[a]) == Dif(s[a]) || Dif(t[a]) == Dif(s[a']);
      }
      forall k | 0 <= k <= j + 1 ensures Dif(t[k]) >= Dif(t[j + 1]) {
        if k < j {
          assert Dif(s[k]) >= Dif(s[j]);
        }
      }
      if j + 1 == m {
        forall a, b | 0 <= a < b < |t| && m <= b ensures Dif(t[a]) >= Dif(t[b]) {
          if b == m {
            assert Dif(t[a]) >= Dif(t[j + 1]);
          }
        }
      }
    } else {
      assert t == s;
      if j == m {
        forall a, b | 0 <= a < b < |s| && m <= b ensures Dif(s[a]) >= Dif(s[b]) {
          if b == m {
            assert Dif(s[a]) >= Dif(s[j]);
          }
        }
      }
    }
  }

  /** Exchanging two records keeps the multiset of records and the one-record-per-word shape. */
  lemma {:induction false} SwapKeeps(s: seq<Record>, i: int, j: int)
    requires 0 <= i < |s| && 0 <= j < |s|
    ensures multiset(s[i := s[j]][j := s[i]]) == multiset(s)
    ensures WellFormed(s) ==> WellFormed(s[i := s[j]][j := s[i]])
  {
    var t := s[i := s[j]][j := s[i]];
    if WellFormed(s) {
      forall a, b | 0 <= a < b < |t| ensures t[a].word != t[b].word {
        var a' := if a == i then j else if a == j then i else a;
        var b' := if b == i then j else if b == j then i else b;
        assert t[a] == s[a'] && t[b] == s[b'] && a' != b';
        if a' < b' {} else {}
      }
      forall a | 0 <= a < |t| ensures |t[a].word| <= WORD_COUNT {
        var a' := if a == i then j else if a == j then i else a;
        assert t[a] == s[a'];
      }
    }
  }

  /** The word list: `records` are the nodes' contents from head to tail. */
  class WordList {
    var records: seq<Record>

    ghost predicate Valid()
      reads this
    {
      WellFormed(records)
    }

    /** create: the empty list. */
    constructor ()
      ensures records == [] && Valid()
    {
      records := [];
    }

    /** find: the first record of `w`, walking from the head. */
    method Find(w: string) returns (r: Option<nat>)
      ensures r == IndexOf(records, w)
    {
      var i := 0;
      while i < |records|
        invariant 0 <= i <= |records|
        invariant forall j :: 0 <= j < i ==> records[j].word != w
      {
        if records[i].word == w {
          return Some(i);
        }
        i := i + 1;
      }
      return None;
    }

    /** add: count one occurrence of `w` in the book `whichfile`. */
    method Add(w: string, whichfile: int)
      requires Valid() && |w| <= WORD_COUNT
      modifies this
      ensures Valid() && records == AddWord(old(records), w, whichfile)
    {
      AddWordKeeps(records, w, whichfile);
      var t := Find(w);
      if t.None? {
        records := [Record(w, 0, 0)] + records;
        t := Some(0);
      }
      ghost var before := records;
      var n := records[t.val];
      if whichfile == 0 {
        records := records[t.val := n.(badge := n.badge + 1)];
      } else {
        records := records[t.val := n.(little := n.little + 1)];
      }
      assert records == before[t.val := Bump(before[t.val], whichfile)];
    }

    /** swap: exchange the contents of the nodes at positions i and j, leaving the links. */
    method Swap(i: int, j: int)
      requires 0 <= i < |records| && 0 <= j < |records|
      modifies this
      ensures records == old(records)[i := old(records)[j]][j := old(records)[i]]
    {
      var r := records[i];
      records := records[i := records[j]];
      records := records[j := r];
    }

    /**
     * One pass of sort's inner loop, comparing each node with the next from the head to the
     * tail and exchanging them when the next differs more. With the records from n - i on
     * settled before, those from n - i - 1 on are settled after.
     */
    method SortPass(i: int)
      requires Valid() && 0 <= i < |records| && Settled(records, |records| - i)
      modifies this
      ensures Valid() && |records| == |old(records)| && multiset(records) == multiset(old(records))
      ensures Settled(records, |records| - i - 1)
    {
      var n := |records|;
      var m := n - i - 1;
      var j := 0;
      while j < n - 1
        invariant 0 <= j < n && |records| == n && Valid()
        invariant multiset(records) == multiset(old(records))
        invariant Settled(records, n - i)
        invariant j <= m ==> LeastAt(records, j)
        invariant j >= m ==> Settled(records, m)
      {
        PassStepKeeps(records, i, j);
        if Dif(records[j]) < Dif(records[j + 1]) {
          SwapKeeps(records, j, j + 1);
          Swap(j, j + 1);
        }
        j := j + 1;
      }
    }

    /**
     * sort: as many passes as there are nodes. The result holds the same records, one per
     * word, with the differences non-increasing from the head.
     */
    method Sort()
      requires Valid()
      modifies this
      ensures Valid() && |records| == |old(records)| && multiset(records) == multiset(old(records))
      ensures NonIncreasing(records)
    {
      var count := |records|;
      var i := 0;
      while i < count
        invariant 0 <= i <= count && |records| == count && Valid()
        invariant multiset(records) == multiset(old(records))
        invariant Settled(records, count - i)
      {
        SortPass(i);
        i := i + 1;
      }
    }
  }
}
