/** Lexicographically ordered integer pairs, Python's `sorted(set(...))` over
    tuples, and the minimum and maximum of a list. */
module Order {

  /** A pair of integers compared as a Python tuple: first component, then second. */
  type Key = (int, int)

  predicate Less(a: Key, b: Key) {
    a.0 < b.0 || (a.0 == b.0 && a.1 < b.1)
  }

  predicate StrictlySorted(s: seq<Key>) {
    forall i, j :: 0 <= i < j < |s| ==> Less(s[i], s[j])
  }

  /** Inserts k into a strictly sorted list, unless it is already there. */
  function Insert(s: seq<Key>, k: Key): (r: seq<Key>)
    requires StrictlySorted(s)
    ensures StrictlySorted(r)
    ensures forall x :: x in r <==> x in s || x == k
  {
    if |s| == 0 then [k]
    else if k == s[0] then s
    else if Less(k, s[0]) then [k] + s
    else
      assert Less(s[0], k);
      var t := Insert(s[1..], k);
      assert forall x :: x in t ==> Less(s[0], x);
      [s[0]] + t
  }

  /** `sorted(set(ks))`: the distinct elements of ks in increasing order. */
  function SortedUnique(ks: seq<Key>): (r: seq<Key>)
    ensures StrictlySorted(r)
    ensures forall x :: x in r <==> x in ks
    ensures |r| == |set x | x in ks|
  {
    if |ks| == 0 then []
    else
      var r := Insert(SortedUnique(ks[..|ks| - 1]), ks[|ks| - 1]);
      assert forall x :: x in ks <==> x in ks[..|ks| - 1] || x == ks[|ks| - 1];
      assert (set x | x in r) == (set x | x in ks);
      DistinctCard(r);
      r
  }

  /** A strictly sorted list has as many elements as its set. */
  lemma {:induction false} DistinctCard(s: seq<Key>)
    requires StrictlySorted(s)
    ensures |set x | x in s| == |s|
  {
    if |s| > 0 {
      DistinctCard(s[1..]);
      assert (set x | x in s) == (set x | x in s[1..]) + {s[0]};
      assert s[0] !in s[1..];
    }
  }

  /** The position of k in a strictly sorted list that holds it. */
  function IndexOf(s: seq<Key>, k: Key): (i: nat)
    requires StrictlySorted(s) && k in s
    ensures i < |s| && s[i] == k
  {
    if s[0] == k then 0 else 1 + IndexOf(s[1..], k)
  }

  /** In a strictly sorted list the position of an element is its rank: the
      number of the list's elements below it. */
  lemma RankIsIndex(s: seq<Key>, k: Key)
    requires StrictlySorted(s) && k in s
    ensures IndexOf(s, k) == |set x | x in s && Less(x, k)|
  {
    var i := IndexOf(s, k);
    forall x | x in s && Less(x, k) ensures x in s[..i] {
      var j :| 0 <= j < |s| && s[j] == x;
      assert j < i;
      assert s[..i][j] == x;
    }
    forall x | x in s[..i] ensures x in s && Less(x, k) {
      var j :| 0 <= j < i && s[..i][j] == x;
      assert Less(s[j], s[i]);
    }
    assert (set x | x in s && Less(x, k)) == (set x | x in s[..i]);
    DistinctCard(s[..i]);
  }

  /** Positions in a strictly sorted list follow the order of the elements. */
  lemma IndexOfMonotone(s: seq<Key>, a: Key, b: Key)
    requires StrictlySorted(s) && a in s && b in s
    ensures Less(a, b) <==> IndexOf(s, a) < IndexOf(s, b)
    ensures a == b <==> IndexOf(s, a) == IndexOf(s, b)
  {
  }

  /** numpy's `min()` of a non-empty array. */
  function Min(s: seq<int>): (m: int)
    requires |s| > 0
    ensures m in s
    ensures forall x :: x in s ==> m <= x
  {
    if |s| == 1 then s[0]
    else
      var m := Min(s[1..]);
      assert forall x :: x in s ==> x == s[0] || x in s[1..];
      if s[0] <= m then s[0] else m
  }

  /** numpy's `max()` of a non-empty array. */
  function Max(s: seq<int>): (m: int)
    requires |s| > 0
    ensures m in s
    ensures forall x :: x in s ==> x <= m
  {
    if |s| == 1 then s[0]
    else
      var m := Max(s[1..]);
      assert forall x :: x in s ==> x == s[0] || x in s[1..];
      if s[0] >= m then s[0] else m
  }

  /** Min and Max depend only on which values occur, not on order or repetition. */
  lemma MinMaxSameElements(a: seq<int>, b: seq<int>)
    requires |a| > 0 && |b| > 0
    requires forall x :: x in a <==> x in b
    ensures Min(a) == Min(b) && Max(a) == Max(b)
  {
  }
}
