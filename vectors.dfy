/**
 * NULL-terminated vectors of strings, as the shell keeps its argument vector
 * and its directory table: a sequence of slots, each NULL (None) or a string.
 */
module Vectors {
  import opened Wrappers

  /** The entries before the first NULL slot: what a C consumer of the vector sees. */
  function UntilNull<T>(v: seq<Option<T>>): (r: seq<T>)
    ensures |r| <= |v|
    ensures forall k :: 0 <= k < |r| ==> v[k] == Some(r[k])
    ensures |r| < |v| ==> v[|r|] == None
  {
    if v == [] || v[0].None? then [] else [v[0].value] + UntilNull(v[1..])
  }

  /** A vector whose first slots hold `entries` and whose next slot is NULL holds exactly `entries`. */
  lemma {:induction false} UntilNullTerminated<T>(v: seq<Option<T>>, entries: seq<T>)
    requires |entries| < |v| && v[|entries|] == None
    requires forall k :: 0 <= k < |entries| ==> v[k] == Some(entries[k])
    ensures UntilNull(v) == entries
  {
    if entries != [] {
      UntilNullTerminated(v[1..], entries[1..]);
    }
  }

  /** A vector without NULL slots is seen whole. */
  lemma {:induction false} UntilNullFull<T>(v: seq<Option<T>>, entries: seq<T>)
    requires |v| == |entries|
    requires forall k :: 0 <= k < |entries| ==> v[k] == Some(entries[k])
    ensures UntilNull(v) == entries
  {
    if entries != [] {
      UntilNullFull(v[1..], entries[1..]);
    }
  }

  /** A prefix without NULL slots passes through to the rest of the vector. */
  lemma {:induction false} UntilNullAppend<T>(a: seq<Option<T>>, b: seq<Option<T>>)
    requires forall k :: 0 <= k < |a| ==> a[k].Some?
    ensures UntilNull(a + b) == UntilNull(a) + UntilNull(b)
  {
    if a == [] {
      assert a + b == b;
    } else {
      assert (a + b)[0] == a[0];
      assert (a + b)[1..] == a[1..] + b;
      UntilNullAppend(a[1..], b);
    }
  }
}
