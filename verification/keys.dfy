/**
  Ordering of primary keys: the order in which `ORDER BY id` returns the
  rows of a table.
 */
module Keys {

  /** Each key is smaller than every key after it, so no key repeats. */
  predicate StrictlyIncreasing(s: seq<int>) {
    forall i, j :: 0 <= i < j < |s| ==> s[i] < s[j]
  }

  /** A non-empty set has an element. */
  lemma NonEmptyHasElement(s: set<int>)
    requires s != {}
    ensures exists x :: x in s
  {
    if forall x :: x !in s {
      assert false;
    }
  }

  /** The least element of a non-empty set of keys. */
  lemma {:induction false} MinExists(s: set<int>)
    requires s != {}
    ensures exists m :: m in s && forall x :: x in s ==> m <= x
  {
    NonEmptyHasElement(s);
    var y :| y in s;
    if s != {y} {
      MinExists(s - {y});
      var m :| m in s - {y} && forall x :: x in s - {y} ==> m <= x;
      var least := if y < m then y else m;
      forall x | x in s ensures least <= x {
        if x != y {
          assert x in s - {y};
        }
      }
      assert least in s;
    } else {
      assert forall x :: x in s ==> y <= x;
    }
  }

  function MinKey(s: set<int>): (m: int)
    requires s != {}
    ensures m in s && forall x :: x in s ==> m <= x
  {
    MinExists(s);
    var m :| m in s && forall x :: x in s ==> m <= x;
    m
  }

  /** The set `keys` in ascending order. */
  function SortedKeys(keys: set<int>): (r: seq<int>)
    ensures StrictlyIncreasing(r)
    ensures forall k :: k in r <==> k in keys
    ensures |r| == |keys|
    decreases keys
  {
    if keys == {} then []
    else
      var m := MinKey(keys);
      var rest := SortedKeys(keys - {m});
      assert forall k :: k in rest ==> m < k;
      [m] + rest
  }

  /** A key below every key of an increasing list extends it. */
  lemma PrependIncreasing(a: int, rest: seq<int>)
    requires StrictlyIncreasing(rest)
    requires forall k :: k in rest ==> a < k
    ensures StrictlyIncreasing([a] + rest)
  {
    forall i, j | 0 <= i < j < |[a] + rest| ensures ([a] + rest)[i] < ([a] + rest)[j] {
      if i == 0 {
        assert ([a] + rest)[j] == rest[j - 1];
        assert rest[j - 1] in rest;
      }
    }
  }

  /**
    Ascending order is unique: two increasing lists with the same members
    are the same list. So `ORDER BY id` fixes the result completely.
   */
  lemma {:induction false} IncreasingUnique(s: seq<int>, r: seq<int>)
    requires StrictlyIncreasing(s) && StrictlyIncreasing(r)
    requires forall k :: k in s <==> k in r
    ensures s == r
    decreases |s|
  {
    assert s != [] ==> s[0] in s;
    assert r != [] ==> r[0] in r;
    if s != [] {
      assert s[0] in r && r[0] in s;
      assert s[0] == r[0];
      forall k ensures k in s[1..] <==> k in r[1..] {
        assert k in s[1..] <==> k in s && k != s[0];
        assert k in r[1..] <==> k in r && k != r[0];
      }
      IncreasingUnique(s[1..], r[1..]);
      assert s == [s[0]] + s[1..] && r == [r[0]] + r[1..];
    }
  }
}
