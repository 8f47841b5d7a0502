/**
 * Types shared by all containers of the word-frequency map harness: an entry is a
 * (key, value) pair whose value is a frequency counter; containers report the
 * exceptions the Java code throws as `Error` values.
 */
module Common {

  /** A Java reference that may be null. */
  datatype Option<T> = None | Some(val: T)

  /** The exceptions thrown by the containers. */
  datatype Error =
    | NoSuchElement          // java.util.NoSuchElementException
    | IllegalArgument        // IllegalArgumentException
    | UnsupportedOperation   // UnsupportedOperationException
    | IndexOutOfBounds       // ArrayIndexOutOfBoundsException
    | NegativeArraySize      // NegativeArraySizeException
    | NullPointer            // NullPointerException

  /** A normal return of `T`, or a thrown exception. */
  datatype Result<T> = Success(value: T) | Failure(error: Error)

  /** A normal return without a value, or a thrown exception. */
  datatype Outcome = Pass | Fail(error: Error)

  /** One key/value pair; the value is the frequency of the key. */
  datatype Entry = Entry(key: int, value: int)

  function Min(a: int, b: int): int { if a <= b then a else b }

  function Max(a: int, b: int): int { if a >= b then a else b }

  /** Keys strictly increase along `s`: the order toString promises for the trees. */
  predicate StrictlyAscending(s: seq<Entry>)
  {
    forall i, j :: 0 <= i < j < |s| ==> s[i].key < s[j].key
  }

  /** The keys of a sequence of entries. */
  function KeysOf(s: seq<Entry>): (r: set<int>)
    ensures forall e :: e in s ==> e.key in r
    ensures forall k :: k in r ==> exists e :: e in s && e.key == k
  {
    if s == [] then {} else {s[0].key} + KeysOf(s[1..])
  }
}
