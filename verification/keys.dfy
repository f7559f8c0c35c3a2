/** Enumeration order of integer-keyed JavaScript objects.

    `Object.values` visits the integer-like keys of an object in ascending
    numeric order. The user table of the mock backend only ever holds such
    keys, so "the first user `find` meets" is the user with the least key,
    and the list `listUsers` returns is ordered by key. */
module Keys {

  /** Some element of `s` lies at or below every element of `s`. */
  ghost predicate HasLeast(s: set<int>)
  {
    exists m :: m in s && forall k :: k in s ==> m <= k
  }

  /** Descending from any element of `s` through smaller elements of `s`
      ends at a least one; the elements below `a` shrink at each step. */
  lemma {:induction false} LeastBelow(s: set<int>, a: int)
    requires a in s
    ensures HasLeast(s)
    decreases set k | k in s && k < a
  {
    if exists b :: b in s && b < a {
      var b :| b in s && b < a;
      var below, belowB := set k | k in s && k < a, set k | k in s && k < b;
      assert belowB < below by {
        assert belowB <= below;
        assert b in below && b !in belowB;
      }
      LeastBelow(s, b);
    } else {
      assert forall k :: k in s ==> a <= k;
    }
  }

  /** The least element of a non-empty set. */
  function Least(s: set<int>): (m: int)
    requires exists a :: a in s
    ensures m in s
    ensures forall k :: k in s ==> m <= k
  {
    ghost var a :| a in s;
    LeastBelow(s, a);
    var m :| m in s && forall k :: k in s ==> m <= k;
    m
  }

  /** Strictly increasing, hence also free of duplicates. */
  predicate Ascending(xs: seq<int>)
  {
    forall i, j :: 0 <= i < j < |xs| ==> xs[i] < xs[j]
  }

  /** The elements of `s` in the order `Object.values` visits them. */
  function Ascend(s: set<int>): (r: seq<int>)
    ensures Ascending(r)
    ensures forall k :: k in r <==> k in s
    ensures |r| == |s|
    decreases s
  {
    if exists a :: a in s then
      var m := Least(s);
      [m] + Ascend(s - {m})
    else
      assert s == {};
      []
  }
}
