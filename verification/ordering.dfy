/** The argsort the parser uses to put matched fields in input order
    (`OrderVector`), a reference definition of the same ordering as a
    function, and the fact that an ordering by distinct keys is unique. */
module Ordering {

  /** Every element of `s` is an index below `n`. */
  predicate InRange(s: seq<nat>, n: nat)
  {
    forall k :: 0 <= k < |s| ==> s[k] < n
  }

  /** No element of `s` appears twice. */
  predicate Distinct(s: seq<nat>)
  {
    forall k, l :: 0 <= k < l < |s| ==> s[k] != s[l]
  }

  /** `s` lists each of 0 .. n-1 exactly once. */
  predicate IsPermutation(s: seq<nat>, n: nat)
  {
    && |s| == n
    && InRange(s, n)
    && Distinct(s)
    && (forall v :: 0 <= v < n ==> v in s)
  }

  /** The keys of the indices in `s` never decrease. */
  predicate SortedBy(s: seq<nat>, keys: seq<int>)
    requires InRange(s, |keys|)
  {
    forall k, l :: 0 <= k < l < |s| ==> keys[s[k]] <= keys[s[l]]
  }

  /** The keys of the indices in `s` strictly increase. */
  predicate StrictlySortedBy(s: seq<nat>, keys: seq<int>)
    requires InRange(s, |keys|)
  {
    forall k, l :: 0 <= k < l < |s| ==> keys[s[k]] < keys[s[l]]
  }

  /** Exchanging two entries keeps a permutation a permutation. */
  lemma {:induction false} SwapKeepsPermutation(s: seq<nat>, n: nat, i: nat, j: nat)
    requires IsPermutation(s, n) && i < n && j < n
    ensures IsPermutation(s[i := s[j]][j := s[i]], n)
  {
    var t := s[i := s[j]][j := s[i]];
    forall v | 0 <= v < n
      ensures v in t
    {
      assert v in s;
      var k :| 0 <= k < |s| && s[k] == v;
      if k == i {
        assert t[j] == v;
      } else if k == j {
        assert t[i] == v;
      } else {
        assert t[k] == v;
      }
    }
  }

  /** The position in i .. |s|-1 whose key is least. */
  method MinPosition(s: seq<nat>, keys: seq<int>, i: nat) returns (m: nat)
    requires InRange(s, |keys|) && i < |s|
    ensures i <= m < |s|
    ensures forall l :: i <= l < |s| ==> keys[s[m]] <= keys[s[l]]
  {
    m := i;
    var j := i + 1;
    while j < |s|
      invariant i <= m < |s| && i + 1 <= j <= |s|
      invariant forall l :: i <= l < j ==> keys[s[m]] <= keys[s[l]]
    {
      if keys[s[j]] < keys[s[m]] {
        m := j;
      }
      j := j + 1;
    }
  }

  /** The first `i` entries are in key order and no key among them exceeds
      a key after them. */
  predicate SortedUpTo(s: seq<nat>, keys: seq<int>, i: nat)
    requires InRange(s, |keys|) && i <= |s|
  {
    && (forall k, l :: 0 <= k < l < i ==> keys[s[k]] <= keys[s[l]])
    && (forall k, l :: 0 <= k < i <= l < |s| ==> keys[s[k]] <= keys[s[l]])
  }

  /** Moving the least remaining entry to position `i` extends the sorted
      prefix by one. */
  lemma {:induction false} SelectionStep(s: seq<nat>, keys: seq<int>, i: nat, m: nat)
    requires InRange(s, |keys|) && i <= m < |s|
    requires SortedUpTo(s, keys, i)
    requires forall l :: i <= l < |s| ==> keys[s[m]] <= keys[s[l]]
    ensures InRange(s[i := s[m]][m := s[i]], |keys|)
    ensures SortedUpTo(s[i := s[m]][m := s[i]], keys, i + 1)
  {
    var t := s[i := s[m]][m := s[i]];
    assert forall l :: 0 <= l < |t| ==> t[l] == (if l == i then s[m] else if l == m then s[i] else s[l]);
    forall k, l | 0 <= k < i + 1 <= l < |t|
      ensures keys[t[k]] <= keys[t[l]]
    {
      if k < i {
        assert keys[s[k]] <= keys[t[l]];
      }
    }
  }

  /** `OrderVector`: the positions 0 .. |toOrder|-1 arranged so that their
      values in `toOrder` never decrease. `ParseCommand` calls `std::sort`,
      which promises exactly this and no particular order among equal
      values; a selection sort stands in for it. */
  method OrderVector(toOrder: seq<int>) returns (ordered: seq<nat>)
    ensures IsPermutation(ordered, |toOrder|)
    ensures SortedBy(ordered, toOrder)
  {
    var n := |toOrder|;
    var a := new nat[n];
    var i := 0;
    while i < n
      invariant 0 <= i <= n
      invariant forall k :: 0 <= k < i ==> a[k] == k
    {
      a[i] := i;
      i := i + 1;
    }
    assert IsPermutation(a[..], n) by {
      forall v | 0 <= v < n
        ensures v in a[..]
      {
        assert a[..][v] == v;
      }
    }
    i := 0;
    while i < n
      invariant 0 <= i <= n
      invariant IsPermutation(a[..], n)
      invariant SortedUpTo(a[..], toOrder, i)
    {
      var m := MinPosition(a[..], toOrder, i);
      SwapKeepsPermutation(a[..], n, i, m);
      SelectionStep(a[..], toOrder, i, m);
      a[i], a[m] := a[m], a[i];
      i := i + 1;
    }
    ordered := a[..];
  }

  /** Putting an element in front of a sequence that lacks it keeps the
      elements distinct. */
  lemma {:induction false} ConsDistinct(a: nat, t: seq<nat>)
    requires Distinct(t) && a !in t
    ensures Distinct([a] + t)
  {
    var u := [a] + t;
    forall k, l | 0 <= k < l < |u|
      ensures u[k] != u[l]
    {
      assert u[l] == t[l - 1];
      if k > 0 {
        assert u[k] == t[k - 1];
      }
    }
  }

  /** Places `x` before the first entry with a larger key. */
  function InsertBy(x: nat, s: seq<nat>, keys: seq<int>): (r: seq<nat>)
    requires x < |keys| && InRange(s, |keys|)
    ensures InRange(r, |keys|) && multiset(r) == multiset(s) + multiset{x}
  {
    if s == [] then [x]
    else if keys[x] <= keys[s[0]] then [x] + s
    else
      assert s == [s[0]] + s[1..];
      [s[0]] + InsertBy(x, s[1..], keys)
  }

  /** Every element of an insertion is the inserted one or an old one. */
  lemma {:induction false} InsertByMembers(x: nat, s: seq<nat>, keys: seq<int>)
    requires x < |keys| && InRange(s, |keys|)
    ensures forall v :: v in InsertBy(x, s, keys) <==> v == x || v in s
  {
    var r := InsertBy(x, s, keys);
    forall v
      ensures v in r <==> v == x || v in s
    {
      assert v in r <==> v in multiset(r);
      assert v in s <==> v in multiset(s);
    }
  }

  /** Inserting into a key-ordered sequence keeps it key-ordered. */
  lemma {:induction false} InsertBySorted(x: nat, s: seq<nat>, keys: seq<int>)
    requires x < |keys| && InRange(s, |keys|) && SortedBy(s, keys)
    ensures SortedBy(InsertBy(x, s, keys), keys)
  {
    if s != [] && keys[s[0]] < keys[x] {
      var rest := InsertBy(x, s[1..], keys);
      InsertBySorted(x, s[1..], keys);
      InsertByMembers(x, s[1..], keys);
      assert forall k :: 0 <= k < |rest| ==> keys[s[0]] <= keys[rest[k]] by {
        forall k | 0 <= k < |rest|
          ensures keys[s[0]] <= keys[rest[k]]
        {
          assert rest[k] in rest;
        }
      }
    }
  }

  /** Inserting an element that is not there yet keeps the elements
      distinct. */
  lemma {:induction false} InsertByDistinct(x: nat, s: seq<nat>, keys: seq<int>)
    requires x < |keys| && InRange(s, |keys|) && Distinct(s) && x !in s
    ensures Distinct(InsertBy(x, s, keys))
  {
    if s == [] {
    } else if keys[x] <= keys[s[0]] {
      ConsDistinct(x, s);
    } else {
      assert s == [s[0]] + s[1..];
      InsertByDistinct(x, s[1..], keys);
      InsertByMembers(x, s[1..], keys);
      ConsDistinct(s[0], InsertBy(x, s[1..], keys));
    }
  }

  /** Insertion sort by key: the reference for the order `OrderVector`
      produces. */
  function SortBy(s: seq<nat>, keys: seq<int>): (r: seq<nat>)
    requires InRange(s, |keys|)
    ensures InRange(r, |keys|) && multiset(r) == multiset(s)
    ensures SortedBy(r, keys)
  {
    if s == [] then []
    else
      assert s == [s[0]] + s[1..];
      var sorted := SortBy(s[1..], keys);
      InsertBySorted(s[0], sorted, keys);
      InsertBy(s[0], sorted, keys)
  }

  /** Sorting distinct elements gives distinct elements. */
  lemma {:induction false} SortByDistinct(s: seq<nat>, keys: seq<int>)
    requires InRange(s, |keys|) && Distinct(s)
    ensures Distinct(SortBy(s, keys))
  {
    if s != [] {
      assert s == [s[0]] + s[1..];
      var sorted := SortBy(s[1..], keys);
      SortByDistinct(s[1..], keys);
      assert s[0] !in multiset(sorted);
      InsertByDistinct(s[0], sorted, keys);
    }
  }

  /** Two sequences over the same elements, both strictly increasing in
      key, are equal: with distinct keys there is one input order only. */
  lemma {:induction false} StrictlySortedUnique(s: seq<nat>, t: seq<nat>, keys: seq<int>)
    requires InRange(s, |keys|) && InRange(t, |keys|)
    requires forall v :: v in s <==> v in t
    requires StrictlySortedBy(s, keys) && StrictlySortedBy(t, keys)
    ensures s == t
  {
    assert |t| == 0 || t[0] in t;
    if s != [] {
      assert s[0] in t;
      assert t[0] in s;
      var i :| 0 <= i < |s| && s[i] == t[0];
      var j :| 0 <= j < |t| && t[j] == s[0];
      forall v
        ensures v in s[1..] <==> v in t[1..]
      {
        if v in s[1..] {
          var k :| 1 <= k < |s| && s[k] == v;
          assert keys[s[0]] < keys[s[k]];
          assert v in t;
          assert v != t[0];
        }
        if v in t[1..] {
          var k :| 1 <= k < |t| && t[k] == v;
          assert keys[t[0]] < keys[t[k]];
          assert v in s;
          assert v != s[0];
        }
      }
      StrictlySortedUnique(s[1..], t[1..], keys);
    }
  }
}
