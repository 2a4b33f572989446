/** Instance ordinals: each class's counter starts at the class's total
    count and drops by one each time a detection of the class passes the
    filter, so the first passing instance gets the highest number. */
module Ordinals {
  import opened ClassCounts

  /** How many detections before position `i` are of class `n` and passed. */
  function PassedBefore(names: seq<string>, passed: seq<bool>, i: nat, n: string): (k: nat)
    requires |passed| == |names| && i <= |names|
    ensures k <= Count(names[..i], n)
  {
    if i == 0 then 0
    else
      CountPrefixStep(names, i - 1, n);
      PassedBefore(names, passed, i - 1, n) + (if names[i - 1] == n && passed[i - 1] then 1 else 0)
  }

  /** The counter value of class `names[i]` when detection `i` is reached. */
  function OrdinalAt(names: seq<string>, passed: seq<bool>, i: nat): (k: nat)
    requires |passed| == |names| && i < |names|
    ensures 1 <= k <= Count(names, names[i])
  {
    CountPrefixStep(names, i, names[i]);
    CountPrefixBounded(names, i + 1, names[i]);
    Count(names, names[i]) - PassedBefore(names, passed, i, names[i])
  }

  lemma {:induction false} PassedBeforeMonotone(names: seq<string>, passed: seq<bool>, i: nat, j: nat, n: string)
    requires |passed| == |names| && i <= j <= |names|
    ensures PassedBefore(names, passed, i, n) <= PassedBefore(names, passed, j, n)
    decreases j - i
  {
    if i < j {
      PassedBeforeMonotone(names, passed, i, j - 1, n);
    }
  }

  /** Within one class, a passing detection's ordinal is strictly larger
      than that of every later detection of the class. */
  lemma OrdinalsDecrease(names: seq<string>, passed: seq<bool>, i: nat, j: nat)
    requires |passed| == |names| && i < j < |names|
    requires names[i] == names[j] && passed[i]
    ensures OrdinalAt(names, passed, i) > OrdinalAt(names, passed, j)
  {
    PassedBeforeMonotone(names, passed, i + 1, j, names[i]);
  }

  /** Passing detections of one class never share an ordinal. */
  lemma OrdinalsDistinct(names: seq<string>, passed: seq<bool>, i: nat, j: nat)
    requires |passed| == |names| && i < |names| && j < |names| && i != j
    requires names[i] == names[j] && passed[i] && passed[j]
    ensures OrdinalAt(names, passed, i) != OrdinalAt(names, passed, j)
  {
    if i < j {
      OrdinalsDecrease(names, passed, i, j);
    } else {
      OrdinalsDecrease(names, passed, j, i);
    }
  }

  /** A filtered-out detection consumes no ordinal: if no detection of the
      class passes from `i` up to `j`, detections `i` and `j` see the same
      counter. */
  lemma {:induction false} FilteredKeepsOrdinal(names: seq<string>, passed: seq<bool>, i: nat, j: nat)
    requires |passed| == |names| && i <= j < |names| && names[i] == names[j]
    requires forall k :: i <= k < j && names[k] == names[i] ==> !passed[k]
    ensures OrdinalAt(names, passed, i) == OrdinalAt(names, passed, j)
    decreases j - i
  {
    if i < j {
      var n := names[i];
      assert PassedBefore(names, passed, j, n) == PassedBefore(names, passed, j - 1, n);
      SameClassBefore(names, passed, i, j - 1, n);
    }
  }

  lemma {:induction false} SameClassBefore(names: seq<string>, passed: seq<bool>, i: nat, j: nat, n: string)
    requires |passed| == |names| && i <= j <= |names|
    requires forall k :: i <= k < j && names[k] == n ==> !passed[k]
    ensures PassedBefore(names, passed, i, n) == PassedBefore(names, passed, j, n)
    decreases j - i
  {
    if i < j {
      SameClassBefore(names, passed, i, j - 1, n);
    }
  }

  /** When every detection of class `n` passes, the counter of `n` before `i`
      has dropped once per earlier detection of the class, whatever the filter
      does to other classes. */
  lemma {:induction false} AllPassedBefore(names: seq<string>, passed: seq<bool>, i: nat, n: string)
    requires |passed| == |names| && i <= |names|
    requires forall k :: 0 <= k < |names| && names[k] == n ==> passed[k]
    ensures PassedBefore(names, passed, i, n) == Count(names[..i], n)
  {
    if i > 0 {
      AllPassedBefore(names, passed, i - 1, n);
      CountPrefixStep(names, i - 1, n);
    }
  }

  /** Every value below the count of `n` in a prefix is the count in some
      shorter prefix that ends just before an occurrence of `n`. */
  lemma {:induction false} PrefixCountsReached(names: seq<string>, len: nat, n: string, m: nat)
    requires len <= |names| && m < Count(names[..len], n)
    ensures exists i :: 0 <= i < len && names[i] == n && Count(names[..i], n) == m
  {
    assert len > 0;
    CountPrefixStep(names, len - 1, n);
    if m < Count(names[..len - 1], n) {
      PrefixCountsReached(names, len - 1, n, m);
    } else {
      assert names[len - 1] == n && Count(names[..len - 1], n) == m;
    }
  }

  /** The ordinals a class receives. */
  function ClassOrdinals(names: seq<string>, passed: seq<bool>, n: string): set<nat>
    requires |passed| == |names|
  {
    set i | 0 <= i < |names| && names[i] == n && passed[i] :: OrdinalAt(names, passed, i)
  }

  /** When every detection of class `n` passes, the class receives exactly the
      ordinals 1 .. k, k its number of detections, whatever the filter does to
      other classes. */
  lemma AllPassOrdinalsExact(names: seq<string>, passed: seq<bool>, n: string)
    requires |passed| == |names|
    requires forall k :: 0 <= k < |names| && names[k] == n ==> passed[k]
    ensures forall k :: k in ClassOrdinals(names, passed, n) <==> 1 <= k <= Count(names, n)
  {
    var c := Count(names, n);
    forall k | 1 <= k <= c
      ensures k in ClassOrdinals(names, passed, n)
    {
      assert names[..|names|] == names;
      PrefixCountsReached(names, |names|, n, c - k);
      var i :| 0 <= i < |names| && names[i] == n && Count(names[..i], n) == c - k;
      AllPassedBefore(names, passed, i, n);
      assert OrdinalAt(names, passed, i) == k;
    }
  }
}
