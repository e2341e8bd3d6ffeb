/**
 * The order in which the engine seeds its queue from a record of players:
 * Object.values lists the values of integer-keyed entries in ascending
 * numeric key order.
 */
module Keys {

  /** A non-empty set has an element. */
  lemma Inhabited(s: set<int>)
    requires s != {}
    ensures exists y :: y in s
  {
    if forall y :: y !in s {
      assert false;
    }
  }

  /** The least element of a non-empty set of integers. */
  ghost function MinOf(s: set<int>): (m: int)
    requires s != {}
    ensures m in s
    ensures forall x :: x in s ==> m <= x
  {
    Inhabited(s);
    var x :| x in s;
    if s == {x} then x
    else
      var m' := MinOf(s - {x});
      assert forall y :: y in s ==> y == x || y in s - {x};
      if x < m' then x else m'
  }

  /** The elements of `s` in ascending order. */
  ghost function SortedKeys(s: set<int>): (r: seq<int>)
    ensures |r| == |s|
    ensures forall k :: 0 <= k < |r| ==> r[k] in s
  {
    if s == {} then []
    else
      var m := MinOf(s);
      [m] + SortedKeys(s - {m})
  }

  /** Every element of `s` is listed by SortedKeys. */
  lemma {:induction false} SortedKeysComplete(s: set<int>, x: int)
    requires x in s
    ensures x in SortedKeys(s)
    decreases s
  {
    var m := MinOf(s);
    if x != m {
      SortedKeysComplete(s - {m}, x);
      assert SortedKeys(s) == [m] + SortedKeys(s - {m});
    }
  }

  /** SortedKeys lists the elements in strictly ascending order (so each once). */
  lemma {:induction false} SortedKeysIncreasing(s: set<int>, a: int, b: int)
    requires 0 <= a < b < |SortedKeys(s)|
    ensures SortedKeys(s)[a] < SortedKeys(s)[b]
    decreases s
  {
    var m := MinOf(s);
    var t := SortedKeys(s - {m});
    assert SortedKeys(s) == [m] + t;
    if a == 0 {
      assert SortedKeys(s)[b] == t[b - 1] && t[b - 1] in s - {m};
    } else {
      SortedKeysIncreasing(s - {m}, a - 1, b - 1);
    }
  }

  /** The least element comes first, followed by the others in order. */
  lemma SortedKeysUnfold(s: set<int>, m: int)
    requires m in s && forall x :: x in s ==> m <= x
    ensures SortedKeys(s) == [m] + SortedKeys(s - {m})
  {
    var least := MinOf(s);
    assert least <= m && m <= least;
  }

  /** Lists the elements of `s` in ascending order. */
  method KeysAscending(s: set<int>) returns (r: seq<int>)
    ensures r == SortedKeys(s)
  {
    r := [];
    var rest := s;
    while rest != {}
      invariant r + SortedKeys(rest) == SortedKeys(s)
      decreases rest
    {
      var m :| m in rest && forall x :: x in rest ==> m <= x;
      SortedKeysUnfold(rest, m);
      r, rest := r + [m], rest - {m};
    }
  }
}
