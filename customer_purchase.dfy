/**
 * The customer purchase table: an array of customer records, the first `size` of them in
 * use, each holding the items that customer bought in order of purchase. `add` files one
 * purchase under its customer, opening a new record for a new name; `sortItems` bubble-sorts
 * a customer's items by purchase value, largest first.
 */
module CustomerPurchase {

  /** Capacity of a name buffer, terminator included. */
  const STR_LEN := 30
  /** The number of customer records the table holds. */
  const NUM_CUST := 20
  /** The number of items a customer record holds. */
  const NUM_ITEMS := 10

  /** One purchase: the item's name, how many were bought and the unit price. */
  datatype Item = Item(name: string, amount: int, price: real)

  /** A customer record; `items` are its first `size` items. */
  datatype Customer = Customer(name: string, items: seq<Item>)

  /** The table after add: its records and the new number in use. */
  datatype Added = Added(param: seq<Customer>, size: int)

  /**
   * find as written: the lowest index in 0..size, one past the records in use included,
   * whose name is `name`, else -1.
   */
  function FindAsWritten(s: seq<Customer>, size: int, name: string): (r: int)
    requires size < |s|
    ensures r == -1 || 0 <= r <= size
    ensures r >= 0 ==> s[r].name == name && forall k :: 0 <= k < r ==> s[k].name != name
    ensures r == -1 <==> forall k :: 0 <= k <= size ==> s[k].name != name
    decreases size + 1
  {
    if size < 0 then -1
    else
      var r := FindAsWritten(s, size - 1, name);
      if r >= 0 then r else if s[size].name == name then size else -1
  }

  /** The record of `name` among the first `size`, the lookup find is meant to do; -1 if none. */
  function LookUp(s: seq<Customer>, size: int, name: string): (r: int)
    requires size <= |s|
    ensures r == -1 || 0 <= r < size
    ensures r >= 0 ==> s[r].name == name && forall k :: 0 <= k < r ==> s[k].name != name
    ensures r == -1 <==> forall k :: 0 <= k < size ==> s[k].name != name
    decreases size
  {
    if size <= 0 then -1
    else
      var r := LookUp(s, size - 1, name);
      if r >= 0 then r else if s[size - 1].name == name then size - 1 else -1
  }

  /** The two lookups agree unless the record one past the table is named `name`. */
  lemma {:induction false} FindAgreesWithLookUp(s: seq<Customer>, size: int, name: string)
    requires 0 <= size < |s| && s[size].name != name
    ensures FindAsWritten(s, size, name) == LookUp(s, size, name)
  {
    var f := FindAsWritten(s, size, name);
    var l := LookUp(s, size, name);
    if f >= 0 {
      assert l >= 0 && l == f;
    } else {
      assert l == -1;
    }
  }

  /** add as written: the purchase goes to the record find returns, else to a new record at `size`. */
  function AddAsWritten(s: seq<Customer>, size: int, name: string, it: Item): (r: Added)
    requires 0 <= size < |s|
    ensures |r.param| == |s|
    ensures r.size == if FindAsWritten(s, size, name) == -1 then size + 1 else size
  {
    var i := FindAsWritten(s, size, name);
    if i >= 0 then Added(s[i := s[i].(items := s[i].items + [it])], size)
    else Added(s[size := Customer(name, [it])], size + 1)
  }

  /** add as meant: the record is looked up among those in use only. */
  function AddFixed(s: seq<Customer>, size: int, name: string, it: Item): (r: Added)
    requires 0 <= size < |s|
    ensures |r.param| == |s|
    ensures r.size == if LookUp(s, size, name) == -1 then size + 1 else size
  {
    var i := LookUp(s, size, name);
    if i >= 0 then Added(s[i := s[i].(items := s[i].items + [it])], size)
    else Added(s[size := Customer(name, [it])], size + 1)
  }

  /** The records in use have distinct names. */
  ghost predicate DistinctNames(s: seq<Customer>, size: int)
    requires 0 <= size <= |s|
  {
    forall i, j :: 0 <= i < j < size ==> s[i].name != s[j].name
  }

  /** All purchases filed under `name` among the first `size` records. */
  function PurchasesOf(s: seq<Customer>, size: int, name: string): seq<Item>
    requires 0 <= size <= |s|
    decreases size
  {
    if size == 0 then []
    else PurchasesOf(s, size - 1, name) + (if s[size - 1].name == name then s[size - 1].items else [])
  }

  /** Changing records at `size` and beyond leaves the purchases filed among the first `size` alone. */
  lemma {:induction false} PurchasesOfPrefix(s: seq<Customer>, t: seq<Customer>, size: int, name: string)
    requires 0 <= size <= |s| && size <= |t| && s[..size] == t[..size]
    ensures PurchasesOf(s, size, name) == PurchasesOf(t, size, name)
    decreases size
  {
    if size > 0 {
      assert s[size - 1] == s[..size][size - 1] == t[size - 1];
      assert s[..size - 1] == s[..size][..size - 1] == t[..size][..size - 1] == t[..size - 1];
      PurchasesOfPrefix(s, t, size - 1, name);
    }
  }

  /** Replacing the record at i with one whose items grew by `it`, for the only record named `name`. */
  lemma {:induction false} PurchasesOfAppend(s: seq<Customer>, size: int, i: int, it: Item, v: string)
    requires 0 <= i < size <= |s| && forall k :: 0 <= k < size && k != i ==> s[k].name != s[i].name
    ensures var t := s[i := s[i].(items := s[i].items + [it])];
      PurchasesOf(t, size, v) == PurchasesOf(s, size, v) + (if v == s[i].name then [it] else [])
    decreases size
  {
    var t := s[i := s[i].(items := s[i].items + [it])];
    if size - 1 == i {
      PurchasesOfPrefix(s, t, size - 1, v);
    } else {
      PurchasesOfAppend(s, size - 1, i, it, v);
      if s[size - 1].name == v {
        assert v != s[i].name;
      }
    }
  }

  /**
   * The corrected add keeps the names distinct, and the purchases filed under each name are
   * those before with the new purchase appended for its customer alone; the table grows by a
   * record exactly when the customer is new.
   */
  lemma {:induction false} AddFixedFiles(s: seq<Customer>, size: int, name: string, it: Item, v: string)
    requires 0 <= size < |s| && DistinctNames(s, size)
    ensures var r := AddFixed(s, size, name, it);
      |r.param| == |s| && DistinctNames(r.param, r.size)
      && (r.size == size + 1 <==> LookUp(s, size, name) == -1)
      && (r.size == size || r.size == size + 1)
      && PurchasesOf(r.param, r.size, v) == PurchasesOf(s, size, v) + (if v == name then [it] else [])
  {
    var r := AddFixed(s, size, name, it);
    var i := LookUp(s, size, name);
    if i >= 0 {
      PurchasesOfAppend(s, size, i, it, v);
    } else {
      var t := s[size := Customer(name, [it])];
      assert t[..size] == s[..size];
      PurchasesOfPrefix(s, t, size, v);
      if v == name {
        NoPurchases(s, size, v);
      }
    }
  }

  /** A name with no record among the first `size` has no purchases filed. */
  lemma {:induction false} NoPurchases(s: seq<Customer>, size: int, v: string)
    requires 0 <= size <= |s| && forall k :: 0 <= k < size ==> s[k].name != v
    ensures PurchasesOf(s, size, v) == []
    decreases size
  {
    if size > 0 {
      NoPurchases(s, size - 1, v);
    }
  }

  /**
   * The as-written add loses a purchase: with one record in use and a record named "ann"
   * one past it, a purchase by "ann" is filed beyond the table, which keeps its size.
   */
  lemma {:induction false} StaleSlotLosesPurchase(it: Item)
    ensures var s := [Customer("bob", []), Customer("ann", [])];
      var r := AddAsWritten(s, 1, "ann", it);
      FindAsWritten(s, 1, "ann") == 1 && r.size == 1 && r.param[..1] == s[..1]
      && PurchasesOf(r.param, r.size, "ann") == []
  {
    var s := [Customer("bob", []), Customer("ann", [])];
    assert s[0].name != "ann" by {
      assert s[0].name[0] == 'b';
    }
    var r := AddAsWritten(s, 1, "ann", it);
    NoPurchases(r.param, 1, "ann");
  }

  /** find: the loop of the source, from index 0 up to and including `size`. */
  method Find(param: array<Customer>, size: int, name: string) returns (i: int)
    requires size < param.Length
    ensures i == FindAsWritten(param[..], size, name)
  {
    i := 0;
    while i <= size
      invariant 0 <= i <= (if size >= 0 then size + 1 else 0)
      invariant forall k :: 0 <= k < i ==> param[k].name != name
    {
      if param[i].name == name {
        return i;
      }
      i := i + 1;
    }
    return -1;
  }

  /**
   * add: file one purchase. The record it goes to must have room for another item, a new
   * record must fit the table, and the names must fit their buffers.
   */
  method Add(param: array<Customer>, size: int, name: string, itemName: string, amount: int, price: real)
    returns (newSize: int)
    requires param.Length == NUM_CUST
    requires 0 <= size < param.Length && |name| < STR_LEN && |itemName| < STR_LEN
    requires var f := FindAsWritten(param[..], size, name); f >= 0 ==> |param[..][f].items| < NUM_ITEMS
    modifies param
    ensures var r := AddAsWritten(old(param[..]), size, name, Item(itemName, amount, price));
      param[..] == r.param && newSize == r.size
  {
    var i := Find(param, size, name);
    var n := Item(itemName, amount, price);
    if i >= 0 {
      param[i] := param[i].(items := param[i].items + [n]);
      newSize := size;
    } else {
      param[size] := Customer(name, [n]);
      newSize := size + 1;
    }
  }

  /** Purchase values do not increase along `s[..n]`. */
  ghost predicate NonIncreasing(s: seq<Item>, key: Item -> real, n: int)
    requires 0 <= n <= |s|
  {
    forall x, y :: 0 <= x < y < n ==> key(s[x]) >= key(s[y])
  }

  /** Within `s[..n]`, every item from index m on is worth no more than any item before it. */
  ghost predicate Settled(s: seq<Item>, key: Item -> real, n: int, m: int)
    requires 0 <= n <= |s|
  {
    forall x, y :: 0 <= x < y < n && m <= y ==> key(s[x]) >= key(s[y])
  }

  /** The least value of `s[..j + 1]` sits at j. */
  ghost predicate LeastAt(s: seq<Item>, key: Item -> real, j: int)
    requires 0 <= j < |s|
  {
    forall k :: 0 <= k <= j ==> key(s[k]) >= key(s[j])
  }

  /** sortItems' inner step at j: exchange j and j + 1 when the later one is worth more. */
  function BubbleStep(s: seq<Item>, key: Item -> real, j: int): seq<Item>
    requires 0 <= j < |s| - 1
  {
    if key(s[j]) < key(s[j + 1]) then s[j := s[j + 1]][j + 1 := s[j]] else s
  }

  /**
   * A step of pass over s[..m] keeps the items of s[..n] and the tail, keeps s[m..n] settled,
   * and carries the least value seen so far along with j.
   */
  lemma {:induction false} BubbleStepKeeps(s: seq<Item>, key: Item -> real, n: int, m: int, j: int)
    requires 0 <= j < m - 1 && m <= n <= |s| && Settled(s, key, n, m) && LeastAt(s, key, j)
    ensures var t := BubbleStep(s, key, j);
      |t| == |s| && multiset(t[..n]) == multiset(s[..n]) && t[n..] == s[n..]
      && Settled(t, key, n, m) && LeastAt(t, key, j + 1)
  {
    var t := BubbleStep(s, key, j);
    if key(s[j]) < key(s[j + 1]) {
      assert t[..n] == s[..n][j := s[j + 1]][j + 1 := s[j]];
      forall x, y | 0 <= x < y < n && m <= y ensures key(t[x]) >= key(t[y]) {
        assert t[y] == s[y];
        var x' := if x == j then j + 1 else if x == j + 1 then j else x;
        assert t[x] == s[x'];
      }
      forall k | 0 <= k <= j + 1 ensures key(t[k]) >= key(t[j + 1]) {
        if k < j {
          assert key(s[k]) >= key(s[j]);
        }
      }
    }
  }

  /** At the end of a pass the least value of s[..m] has reached m - 1: s[m - 1..n] is settled. */
  lemma {:induction false} PassEnds(s: seq<Item>, key: Item -> real, n: int, m: int)
    requires 1 <= m <= n <= |s| && Settled(s, key, n, m) && LeastAt(s, key, m - 1)
    ensures Settled(s, key, n, m - 1)
  {
    forall x, y | 0 <= x < y < n && m - 1 <= y ensures key(s[x]) >= key(s[y]) {
      if y == m - 1 {
        assert key(s[x]) >= key(s[m - 1]);
      }
    }
  }

  /** One pass of sortItems' inner loop over param[..m]. */
  method SortPass(param: array<Item>, size: int, key: Item -> real, m: int)
    requires 1 <= m <= size <= param.Length && Settled(param[..], key, size, m)
    modifies param
    ensures multiset(param[..size]) == multiset(old(param[..size])) && param[size..] == old(param[size..])
    ensures Settled(param[..], key, size, m - 1)
  {
    var j := 0;
    while j < m - 1
      invariant 0 <= j <= m - 1
      invariant multiset(param[..size]) == multiset(old(param[..size])) && param[size..] == old(param[size..])
      invariant Settled(param[..], key, size, m) && LeastAt(param[..], key, j)
    {
      ghost var s := param[..];
      BubbleStepKeeps(s, key, size, m, j);
      if key(param[j]) < key(param[j + 1]) {
        var temp := param[j];
        param[j] := param[j + 1];
        param[j + 1] := temp;
      }
      assert param[..] == BubbleStep(s, key, j);
      j := j + 1;
    }
    PassEnds(param[..], key, size, m);
  }

  /**
   * sortItems: the first `size` items of `param` end as a permutation of themselves with
   * non-increasing purchase value; `key` is the value price * amount as the program computes
   * it. With at most one item, or a negative count, nothing moves.
   */
  method SortItems(param: array<Item>, size: int, key: Item -> real)
    requires size <= param.Length
    modifies param
    ensures 0 <= size ==> multiset(param[..size]) == multiset(old(param[..size])) && param[size..] == old(param[size..])
    ensures 0 <= size ==> NonIncreasing(param[..], key, size)
    ensures size <= 1 ==> param[..] == old(param[..])
  {
    var i := 0;
    while i < size - 1
      invariant 0 <= i && (size >= 1 ==> i <= size - 1)
      invariant 0 <= size ==> multiset(param[..size]) == multiset(old(param[..size])) && param[size..] == old(param[size..])
      invariant 0 <= size ==> Settled(param[..], key, size, size - i)
      invariant size <= 1 ==> param[..] == old(param[..])
    {
      SortPass(param, size, key, size - i);
      i := i + 1;
    }
  }
}
