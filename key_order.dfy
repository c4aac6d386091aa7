/**
 * Listing the keys of the table one after another. The store enumerates its
 * rows in an order of its own; the model lists them by ascending key, and the
 * lookups are specified by membership only, so nothing depends on that order.
 */
module KeyOrder {

  /** Some element of a non-empty set. */
  ghost function Some(s: set<int>): (x: int)
    requires s != {}
    ensures x in s
  {
    assert exists x :: x in s by {
      if forall x :: x !in s { assert false; }
    }
    var x :| x in s; x
  }

  /** `m` is the smallest element of `s`. */
  predicate IsLeast(m: int, s: set<int>) {
    m in s && forall k :: k in s ==> m <= k
  }

  /** `k` is a positive key greater than every key in `s`. */
  ghost predicate IsFreshAbove(k: int, s: set<int>) {
    k > 0 && forall j :: j in s ==> j < k
  }

  lemma {:induction false} LeastExists(s: set<int>)
    requires s != {}
    ensures exists m :: IsLeast(m, s)
  {
    var x := Some(s);
    if s == {x} {
      assert IsLeast(x, s);
    } else {
      LeastExists(s - {x});
      var m :| IsLeast(m, s - {x});
      var least := if x < m then x else m;
      forall k | k in s ensures least <= k {
        if k != x { assert k in s - {x}; }
      }
      assert IsLeast(least, s);
    }
  }

  /** The smallest key of a non-empty set. */
  function Least(s: set<int>): (m: int)
    requires s != {}
    ensures IsLeast(m, s)
  {
    LeastExists(s);
    var m :| IsLeast(m, s); m
  }

  ghost predicate Increasing(r: seq<int>) {
    forall i, j :: 0 <= i < j < |r| ==> r[i] < r[j]
  }

  /** `r` lists exactly the elements of `s`, each once, smallest first. */
  ghost predicate SortedListing(r: seq<int>, s: set<int>) {
    && |r| == |s|
    && (forall i :: 0 <= i < |r| ==> r[i] in s)
    && (forall k :: k in s ==> k in r)
    && Increasing(r)
  }

  /** Putting the least element in front of a listing of the others lists the whole set. */
  lemma PrependLeast(m: int, s: set<int>, rest: seq<int>)
    requires IsLeast(m, s)
    requires SortedListing(rest, s - {m})
    ensures SortedListing([m] + rest, s)
  {
    var r := [m] + rest;
    assert |s - {m}| == |s| - 1;
    assert forall i :: 0 < i < |r| ==> r[i] == rest[i - 1];
    assert forall i :: 0 <= i < |rest| ==> m < rest[i];
    forall k | k in s ensures k in r {
      if k != m { assert k in s - {m}; }
    }
  }

  /** The keys of `s`, each exactly once, smallest first. */
  function SortedKeys(s: set<int>): (r: seq<int>)
    ensures SortedListing(r, s)
    decreases |s|
  {
    if s == {} then []
    else
      var m := Least(s);
      var rest := SortedKeys(s - {m});
      PrependLeast(m, s, rest);
      [m] + rest
  }

  /** There is a positive key above every key in use. */
  lemma {:induction false} KeyAboveExists(s: set<int>)
    ensures exists k :: IsFreshAbove(k, s)
  {
    if s == {} {
      assert IsFreshAbove(1, s);
    } else {
      var x := Some(s);
      KeyAboveExists(s - {x});
      var k :| IsFreshAbove(k, s - {x});
      var k' := if x < k then k else x + 1;
      forall j | j in s ensures j < k' {
        if j != x { assert j in s - {x}; }
      }
      assert IsFreshAbove(k', s);
    }
  }

  /** A store can always pick a positive key that no row uses yet. */
  lemma FreshKeyExists(s: set<int>)
    ensures exists k :: k > 0 && k !in s
  {
    KeyAboveExists(s);
    var k :| IsFreshAbove(k, s);
    assert k !in s;
  }
}
