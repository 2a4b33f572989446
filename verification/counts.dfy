/** Per-class occurrence counts of the detections, as `collections.Counter`
    builds them: one count per class, classes kept in first-encounter order. */
module ClassCounts {

  predicate NoDuplicates<T(==)>(s: seq<T>) {
    forall i, j :: 0 <= i < j < |s| ==> s[i] != s[j]
  }

  /** Number of occurrences of `x` in `xs`. */
  function Count(xs: seq<string>, x: string): (c: nat)
    ensures c <= |xs|
    ensures c > 0 <==> x in xs
  {
    if |xs| == 0 then 0
    else
      var prefix := xs[..|xs| - 1];
      assert xs == prefix + [xs[|xs| - 1]];
      Count(prefix, x) + (if xs[|xs| - 1] == x then 1 else 0)
  }

  /** Counting one more element of `xs`. */
  lemma CountPrefixStep(xs: seq<string>, i: nat, x: string)
    requires i < |xs|
    ensures Count(xs[..i + 1], x) == Count(xs[..i], x) + (if xs[i] == x then 1 else 0)
  {
    assert xs[..i + 1][..i] == xs[..i];
  }

  /** A prefix never holds more occurrences than the whole sequence. */
  lemma {:induction false} CountPrefixBounded(xs: seq<string>, i: nat, x: string)
    requires i <= |xs|
    ensures Count(xs[..i], x) <= Count(xs, x)
    decreases |xs| - i
  {
    if i < |xs| {
      CountPrefixStep(xs, i, x);
      CountPrefixBounded(xs, i + 1, x);
    } else {
      assert xs[..i] == xs;
    }
  }

  /** `Counter(xs)`: a map from every class present to its number of
      occurrences, built by one pass that bumps the entry of each element. */
  function Counts(xs: seq<string>): (m: map<string, nat>)
    ensures forall x :: x in m <==> x in xs
    ensures forall x :: x in m ==> m[x] == Count(xs, x)
  {
    if |xs| == 0 then map[]
    else
      var m := Counts(xs[..|xs| - 1]);
      var x := xs[|xs| - 1];
      assert xs == xs[..|xs| - 1] + [x];
      m[x := (if x in m then m[x] else 0) + 1]
  }

  /** Position of the first occurrence of `x` in `xs`. */
  function FirstIndex(xs: seq<string>, x: string): (i: nat)
    requires x in xs
    ensures i < |xs| && xs[i] == x
    ensures forall j :: 0 <= j < i ==> xs[j] != x
  {
    if xs[0] == x then 0
    else
      assert x in xs[1..];
      1 + FirstIndex(xs[1..], x)
  }

  /** The distinct elements of `xs` in order of first appearance: the key
      order of a Counter. */
  function FirstSeen(xs: seq<string>): (ks: seq<string>)
    ensures NoDuplicates(ks)
    ensures forall x :: x in ks <==> x in xs
  {
    if |xs| == 0 then []
    else
      var ks := FirstSeen(xs[..|xs| - 1]);
      var x := xs[|xs| - 1];
      assert xs == xs[..|xs| - 1] + [x];
      if x in ks then ks else ks + [x]
  }

  /** Appending an element does not move any earlier first occurrence, and a
      new element first occurs at the end. */
  lemma FirstIndexAppend(xs: seq<string>, x: string, y: string)
    requires y in xs + [x]
    ensures y in xs ==> FirstIndex(xs + [x], y) == FirstIndex(xs, y)
    ensures y !in xs ==> FirstIndex(xs + [x], y) == |xs|
  {
    var a := FirstIndex(xs + [x], y);
    if y in xs {
      var b := FirstIndex(xs, y);
      assert (xs + [x])[b] == y;
    }
  }

  /** The classes of FirstSeen appear in increasing order of first occurrence. */
  lemma {:induction false} FirstSeenOrder(xs: seq<string>)
    ensures forall i, j :: 0 <= i < j < |FirstSeen(xs)| ==>
              FirstIndex(xs, FirstSeen(xs)[i]) < FirstIndex(xs, FirstSeen(xs)[j])
  {
    if |xs| > 0 {
      var prefix := xs[..|xs| - 1];
      var x := xs[|xs| - 1];
      assert xs == prefix + [x];
      FirstSeenOrder(prefix);
      var ks := FirstSeen(prefix);
      forall k | 0 <= k < |ks|
        ensures FirstIndex(xs, ks[k]) == FirstIndex(prefix, ks[k])
      {
        FirstIndexAppend(prefix, x, ks[k]);
      }
      if x !in ks {
        FirstIndexAppend(prefix, x, x);
      }
    }
  }
}
