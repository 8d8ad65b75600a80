/**
 * The part of the store's query semantics the listing relies on
 * (controller/news.controller.js, lines 32-37): records ordered by id, and
 * `take`/`skip` over that order.
 */
module Query {

  /** `m` is the least element of `s`. */
  predicate IsLeast(m: int, s: set<int>) {
    m in s && forall k :: k in s ==> m <= k
  }

  /** Every finite non-empty set of ids has a least element. */
  lemma {:induction false} LeastExists(s: set<int>)
    requires s != {}
    ensures exists m :: IsLeast(m, s)
    decreases |s|
  {
    var x :| x in s by {
      if forall k :: k !in s {
        assert false;
      }
    }
    var rest := s - {x};
    assert forall k :: k in s ==> k == x || k in rest;
    if rest != {} {
      LeastExists(rest);
      var m :| IsLeast(m, rest);
      if x < m {
        assert IsLeast(x, s);
      } else {
        assert IsLeast(m, s);
      }
    } else {
      assert IsLeast(x, s);
    }
  }

  /** `r` lists the ids of `s` in strictly ascending order, each exactly once. */
  ghost predicate ListsInOrder(r: seq<int>, s: set<int>) {
    && |r| == |s|
    && (forall i :: 0 <= i < |r| ==> r[i] in s)
    && (forall k :: k in s ==> k in r)
    && (forall i, j :: 0 <= i < j < |r| ==> r[i] < r[j])
  }

  /** Putting the least id in front of an ordered listing of the others orders all of them. */
  lemma LeastInFront(m: int, s: set<int>, rest: seq<int>)
    requires IsLeast(m, s)
    requires ListsInOrder(rest, s - {m})
    ensures ListsInOrder([m] + rest, s)
  {
    var r := [m] + rest;
    assert |s - {m}| == |s| - 1;
    forall i, j | 0 <= i < j < |r| ensures r[i] < r[j] {
      if i == 0 {
        assert r[j] == rest[j - 1] && rest[j - 1] in s - {m};
      } else {
        assert r[i] == rest[i - 1] && r[j] == rest[j - 1];
      }
    }
    forall k | k in s ensures k in r {
      if k != m {
        assert k in s - {m};
        assert k in rest;
      }
    }
  }

  /** The ids of `s` in strictly ascending order, each exactly once. */
  function SortedIds(s: set<int>): (r: seq<int>)
    ensures ListsInOrder(r, s)
    decreases |s|
  {
    if s == {} then []
    else
      LeastExists(s);
      var m :| IsLeast(m, s);
      var rest := SortedIds(s - {m});
      LeastInFront(m, s, rest);
      [m] + rest
  }

  /**
   * `take`/`skip` over a sequence: at most `take` elements, starting at
   * position `skip`, empty once `skip` reaches the end.
   */
  function Window<T>(xs: seq<T>, skip: nat, take: nat): (r: seq<T>)
    ensures |r| <= take
    ensures skip >= |xs| ==> r == []
    ensures skip < |xs| ==> |r| == if skip + take <= |xs| then take else |xs| - skip
    ensures forall i :: 0 <= i < |r| ==> skip + i < |xs| && r[i] == xs[skip + i]
  {
    if skip >= |xs| then []
    else if skip + take <= |xs| then xs[skip..skip + take]
    else xs[skip..]
  }

  /**
   * Consecutive windows of one width cover the sequence without gap or overlap:
   * position `i` is element `i % take` of the window that starts at
   * `(i / take) * take`.
   */
  lemma WindowHolds<T>(xs: seq<T>, take: nat, i: nat)
    requires take >= 1
    requires i < |xs|
    ensures (i / take) * take <= i
    ensures i % take < |Window(xs, (i / take) * take, take)|
    ensures Window(xs, (i / take) * take, take)[i % take] == xs[i]
  {
    var q := i / take;
    assert q * take + i % take == i;
    assert q * take >= 0 by {
      assert q >= 0;
    }
  }
}
