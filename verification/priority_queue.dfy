/**
 * The min-priority queue of the tree builders, replaced by a deterministic
 * selection: the queue is a sequence, `top()` is the FIRST entry of least
 * frequency, `pop()` removes it and `push()` appends.
 */
module PriorityQueue {

  /** Index of the first least key: the entry a min-first queue yields next. */
  function MinIndex(keys: seq<int>): (i: nat)
    requires |keys| > 0
    ensures i < |keys|
  {
    if |keys| == 1 then 0
    else
      var k := MinIndex(keys[1..]);
      if keys[0] <= keys[1 + k] then 0 else 1 + k
  }

  /** The selected key is least, and every key before it is strictly greater: ties go to the earliest. */
  lemma {:induction false} MinIndexLeast(keys: seq<int>)
    requires |keys| > 0
    ensures forall j :: 0 <= j < |keys| ==> keys[MinIndex(keys)] <= keys[j]
    ensures forall j :: 0 <= j < MinIndex(keys) ==> keys[j] > keys[MinIndex(keys)]
  {
    if |keys| > 1 {
      var tail := keys[1..];
      MinIndexLeast(tail);
      assert forall j :: 1 <= j < |keys| ==> keys[j] == tail[j - 1];
    }
  }

  /** The sequence without its entry at index i. */
  function RemoveAt<T>(s: seq<T>, i: nat): (r: seq<T>)
    requires i < |s|
    ensures |r| == |s| - 1
  {
    s[..i] + s[i + 1..]
  }

  /** Entries before i keep their index; entries after it move down by one. */
  lemma RemoveAtIndex<T>(s: seq<T>, i: nat)
    requires i < |s|
    ensures forall j :: 0 <= j < i ==> RemoveAt(s, i)[j] == s[j]
    ensures forall j :: i <= j < |s| - 1 ==> RemoveAt(s, i)[j] == s[j + 1]
  {
  }

  /** Sum of the keys. */
  function Sum(s: seq<nat>): nat
  {
    if |s| == 0 then 0 else s[0] + Sum(s[1..])
  }

  /** Sums split over concatenation. */
  lemma {:induction false} SumAppend(a: seq<nat>, b: seq<nat>)
    ensures Sum(a + b) == Sum(a) + Sum(b)
  {
    if |a| > 0 {
      assert (a + b)[1..] == a[1..] + b;
      SumAppend(a[1..], b);
    } else {
      assert a + b == b;
    }
  }

  /** Removing an entry takes exactly its key out of the sum. */
  lemma SumRemoveAt(s: seq<nat>, i: nat)
    requires i < |s|
    ensures Sum(RemoveAt(s, i)) + s[i] == Sum(s)
  {
    assert s == s[..i] + ([s[i]] + s[i + 1..]);
    SumAppend(s[..i], [s[i]] + s[i + 1..]);
    SumAppend(s[..i], s[i + 1..]);
    assert Sum([s[i]] + s[i + 1..]) == s[i] + Sum(s[i + 1..]) by {
      assert ([s[i]] + s[i + 1..])[1..] == s[i + 1..];
    }
  }

  /** No key exceeds the sum. */
  lemma {:induction false} AtMostSum(s: seq<nat>, i: nat)
    requires i < |s|
    ensures s[i] <= Sum(s)
  {
    if i > 0 {
      AtMostSum(s[1..], i - 1);
    }
  }

  /** Replacing one key changes the sum by the difference. */
  lemma {:induction false} SumUpdate(s: seq<nat>, i: nat, v: nat)
    requires i < |s|
    ensures Sum(s[i := v]) + s[i] == Sum(s) + v
  {
    if i > 0 {
      SumUpdate(s[1..], i - 1, v);
      assert s[i := v][1..] == s[1..][i - 1 := v];
    }
  }

  /** Union of a sequence of sets. */
  function Union<T>(s: seq<set<T>>): set<T>
  {
    if |s| == 0 then {} else s[0] + Union(s[1..])
  }

  /** The union of one set is that set. */
  lemma UnionSingle<T>(s: seq<set<T>>)
    requires |s| == 1
    ensures Union(s) == s[0]
  {
    assert Union(s[1..]) == {};
  }

  /** Unions split over concatenation. */
  lemma {:induction false} UnionAppend<T>(a: seq<set<T>>, b: seq<set<T>>)
    ensures Union(a + b) == Union(a) + Union(b)
  {
    if |a| > 0 {
      assert (a + b)[1..] == a[1..] + b;
      UnionAppend(a[1..], b);
    } else {
      assert a + b == b;
    }
  }

  /** Removing an entry and adding it back separately keeps the union. */
  lemma UnionRemoveAt<T>(s: seq<set<T>>, i: nat)
    requires i < |s|
    ensures Union(RemoveAt(s, i)) + s[i] == Union(s)
  {
    assert s == s[..i] + ([s[i]] + s[i + 1..]);
    UnionAppend(s[..i], [s[i]] + s[i + 1..]);
    UnionAppend(s[..i], s[i + 1..]);
    assert Union([s[i]] + s[i + 1..]) == s[i] + Union(s[i + 1..]) by {
      assert ([s[i]] + s[i + 1..])[1..] == s[i + 1..];
    }
  }
}
