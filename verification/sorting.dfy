/**
 * Python's `sorted(items, key=...)` for items that carry their position in
 * the input list and a string key. The sort is stable, so the result is
 * ordered by key and, among equal keys, by position; that order is total on
 * items with distinct positions, which makes the sorted list unique.
 */
module Sorting {
  import opened Strings

  /** An item of the list being sorted: its position in the input and its sort key. */
  datatype Keyed = Keyed(index: nat, key: string)

  /** `x` precedes `y` in the stable sort: smaller key, or equal key and earlier position. */
  predicate Before(x: Keyed, y: Keyed)
  {
    Less(x.key, y.key) || (x.key == y.key && x.index < y.index)
  }

  predicate StrictlyOrdered(s: seq<Keyed>)
  {
    forall i, j :: 0 <= i < j < |s| ==> Before(s[i], s[j])
  }

  /** The items appear in the order of their positions, as `zip(range(n), ...)` produces them. */
  predicate IndicesIncreasing(s: seq<Keyed>)
  {
    forall i, j :: 0 <= i < j < |s| ==> s[i].index < s[j].index
  }

  /** Places `e` in front of the first item whose key is not smaller than its own. */
  function Insert(e: Keyed, t: seq<Keyed>): (r: seq<Keyed>)
    ensures multiset(r) == multiset(t) + multiset{e}
    ensures |r| == |t| + 1
  {
    if t == [] || !Less(t[0].key, e.key) then [e] + t
    else
      assert t == [t[0]] + t[1..];
      [t[0]] + Insert(e, t[1..])
  }

  /** `sorted(s, key=lambda x: x.key)`. */
  function SortByKey(s: seq<Keyed>): (r: seq<Keyed>)
    ensures multiset(r) == multiset(s)
    ensures |r| == |s|
  {
    if s == [] then []
    else
      assert s == [s[0]] + s[1..];
      Insert(s[0], SortByKey(s[1..]))
  }

  lemma BeforeTransitive(x: Keyed, y: Keyed, z: Keyed)
    requires Before(x, y) && Before(y, z)
    ensures Before(x, z)
  {
    if Less(x.key, y.key) && Less(y.key, z.key) {
      LessTransitive(x.key, y.key, z.key);
    }
  }

  lemma BeforeAsymmetric(x: Keyed, y: Keyed)
    requires Before(x, y)
    ensures !Before(y, x)
  {
    if Less(x.key, y.key) {
      LessAsymmetric(x.key, y.key);
      LessIrreflexive(x.key);
    } else {
      LessIrreflexive(x.key);
    }
  }

  lemma {:induction false} InsertOrdered(e: Keyed, t: seq<Keyed>)
    requires StrictlyOrdered(t)
    requires forall k :: 0 <= k < |t| ==> e.index < t[k].index
    ensures StrictlyOrdered(Insert(e, t))
  {
    var r := Insert(e, t);
    if t == [] {
    } else if !Less(t[0].key, e.key) {
      if e.key != t[0].key {
        LessTotal(e.key, t[0].key);
      }
      assert Before(e, t[0]);
      forall i, j | 0 <= i < j < |r|
        ensures Before(r[i], r[j])
      {
        if i == 0 && j > 1 {
          BeforeTransitive(e, t[0], t[j - 1]);
        }
      }
    } else {
      InsertOrdered(e, t[1..]);
      var u := Insert(e, t[1..]);
      assert r == [t[0]] + u;
      forall j | 0 <= j < |u|
        ensures Before(t[0], u[j])
      {
        assert u[j] in multiset(u);
        if u[j] != e {
          assert u[j] in multiset(t[1..]);
          var m :| 0 <= m < |t[1..]| && t[1..][m] == u[j];
          assert t[m + 1] == u[j];
        }
      }
    }
  }

  /** The sort of a list given in position order is strictly ordered: sorted by key, and stable. */
  lemma {:induction false} SortOrdered(s: seq<Keyed>)
    requires IndicesIncreasing(s)
    ensures StrictlyOrdered(SortByKey(s))
  {
    if s != [] {
      var tail := s[1..];
      SortOrdered(tail);
      var t := SortByKey(tail);
      forall k | 0 <= k < |t|
        ensures s[0].index < t[k].index
      {
        assert t[k] in multiset(tail);
        var m :| 0 <= m < |tail| && tail[m] == t[k];
        assert s[m + 1] == t[k];
      }
      InsertOrdered(s[0], t);
    }
  }

  /** Equal keys keep their input order: what makes `sorted` stable. */
  lemma SortStable(s: seq<Keyed>, i: nat, j: nat)
    requires IndicesIncreasing(s)
    requires i < j < |s|
    requires SortByKey(s)[i].key == SortByKey(s)[j].key
    ensures SortByKey(s)[i].index < SortByKey(s)[j].index
  {
    SortOrdered(s);
    LessIrreflexive(SortByKey(s)[i].key);
  }

  /** Two strictly ordered arrangements of the same items are the same list. */
  lemma {:induction false} OrderedUnique(a: seq<Keyed>, b: seq<Keyed>)
    requires StrictlyOrdered(a) && StrictlyOrdered(b)
    requires multiset(a) == multiset(b)
    ensures a == b
  {
    if a != [] {
      assert a[0] in multiset(b);
      assert b != [];
      if a[0] != b[0] {
        assert b[0] in multiset(a);
        var i :| 0 <= i < |a| && a[i] == b[0];
        var j :| 0 <= j < |b| && b[j] == a[0];
        assert Before(a[0], b[0]);
        assert Before(b[0], a[0]);
        BeforeAsymmetric(a[0], b[0]);
      }
      assert a[0] == b[0];
      assert a == [a[0]] + a[1..] && b == [b[0]] + b[1..];
      assert multiset(a) == multiset{a[0]} + multiset(a[1..]);
      assert multiset(b) == multiset{b[0]} + multiset(b[1..]);
      assert multiset(a[1..]) == multiset(a) - multiset{a[0]};
      OrderedUnique(a[1..], b[1..]);
    }
  }

  /**
   * Any stable sort by key of a list in position order gives exactly
   * `SortByKey`: a permutation that is strictly ordered is that list.
   */
  lemma SortByKeyIsTheStableSort(s: seq<Keyed>, r: seq<Keyed>)
    requires IndicesIncreasing(s)
    requires multiset(r) == multiset(s) && StrictlyOrdered(r)
    ensures r == SortByKey(s)
  {
    SortOrdered(s);
    OrderedUnique(r, SortByKey(s));
  }
}
