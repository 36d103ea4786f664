/** Stable insertion sort by a strict order: the specification of the library sort. */
module Sorting {

  ghost predicate StrictOrder<T(!new)>(lt: (T, T) -> bool) {
    && (forall x :: !lt(x, x))
    && (forall x, y, z :: lt(x, y) && lt(y, z) ==> lt(x, z))
  }

  /** Elements at different positions are comparable, hence different. */
  ghost predicate Comparable<T>(s: seq<T>, lt: (T, T) -> bool) {
    forall i, j | 0 <= i < |s| && 0 <= j < |s| && i != j :: lt(s[i], s[j]) || lt(s[j], s[i])
  }

  ghost predicate Ascending<T>(s: seq<T>, lt: (T, T) -> bool) {
    forall i, j | 0 <= i < j < |s| :: lt(s[i], s[j])
  }

  /** Puts `x` in front of the first element it does not come after. */
  function Insert<T>(x: T, s: seq<T>, lt: (T, T) -> bool): (r: seq<T>)
    ensures multiset(r) == multiset{x} + multiset(s)
  {
    if s == [] then [x]
    else if !lt(s[0], x) then
      assert multiset([x] + s) == multiset{x} + multiset(s);
      [x] + s
    else
      assert s == [s[0]] + s[1..];
      [s[0]] + Insert(x, s[1..], lt)
  }

  function Sort<T>(s: seq<T>, lt: (T, T) -> bool): (r: seq<T>)
    ensures multiset(r) == multiset(s)
  {
    if s == [] then []
    else
      assert s == [s[0]] + s[1..];
      Insert(s[0], Sort(s[1..], lt), lt)
  }

  lemma {:induction false} InsertAscending<T(!new)>(x: T, s: seq<T>, lt: (T, T) -> bool)
    requires StrictOrder(lt) && Ascending(s, lt)
    requires forall y | y in s :: lt(x, y) || lt(y, x)
    ensures Ascending(Insert(x, s, lt), lt)
  {
    if s != [] && lt(s[0], x) {
      InsertAscending(x, s[1..], lt);
      var rest := Insert(x, s[1..], lt);
      forall j | 0 <= j < |rest| ensures lt(s[0], rest[j]) {
        assert rest[j] in multiset(rest);
        assert rest[j] == x || rest[j] in s[1..];
      }
    }
  }

  lemma {:induction false} SortAscending<T(!new)>(s: seq<T>, lt: (T, T) -> bool)
    requires StrictOrder(lt) && Comparable(s, lt)
    ensures Ascending(Sort(s, lt), lt)
  {
    if s != [] {
      var rest := s[1..];
      forall i, j | 0 <= i < |rest| && 0 <= j < |rest| && i != j
        ensures lt(rest[i], rest[j]) || lt(rest[j], rest[i])
      {
        assert rest[i] == s[i + 1] && rest[j] == s[j + 1];
      }
      SortAscending(rest, lt);
      forall y | y in Sort(rest, lt) ensures lt(s[0], y) || lt(y, s[0]) {
        assert y in multiset(Sort(rest, lt));
        var j :| 0 <= j < |rest| && rest[j] == y;
        assert rest[j] == s[j + 1];
      }
      InsertAscending(s[0], Sort(rest, lt), lt);
    }
  }

  /** An ascending arrangement of given elements is unique. */
  /** Neither comes before the other. */
  predicate Tied<T>(a: T, b: T, lt: (T, T) -> bool) { !lt(a, b) && !lt(b, a) }

  /** What is tied with one comes after and before the same as it. */
  ghost predicate WeakOrder<T(!new)>(lt: (T, T) -> bool) {
    StrictOrder(lt) && forall x, y, z :: lt(x, y) && Tied(y, z, lt) ==> lt(x, z)
  }

  /** The elements tied with `z`, in order. */
  function Ties<T>(s: seq<T>, z: T, lt: (T, T) -> bool): seq<T> {
    if s == [] then [] else (if Tied(s[0], z, lt) then [s[0]] else []) + Ties(s[1..], z, lt)
  }

  lemma {:induction false} InsertStable<T>(x: T, s: seq<T>, z: T, lt: (T, T) -> bool)
    requires forall y | y in s && lt(y, x) :: !(Tied(y, z, lt) && Tied(x, z, lt))
    ensures Ties(Insert(x, s, lt), z, lt) == (if Tied(x, z, lt) then [x] else []) + Ties(s, z, lt)
  {
    if s == [] {
      assert [x][1..] == [];
    } else if !lt(s[0], x) {
      TiesStep(x, s, z, lt);
    } else {
      var t := Insert(x, s[1..], lt);
      InsertStable(x, s[1..], z, lt);
      TiesStep(s[0], t, z, lt);
      assert s[0] in s;
      Swap(if Tied(s[0], z, lt) then [s[0]] else [], if Tied(x, z, lt) then [x] else [], Ties(s[1..], z, lt));
    }
  }

  lemma Swap<T>(a: seq<T>, b: seq<T>, rest: seq<T>)
    requires a == [] || b == []
    ensures a + (b + rest) == b + (a + rest)
  {}

  lemma NotBothTied<T(!new)>(s: seq<T>, x: T, z: T, lt: (T, T) -> bool)
    requires WeakOrder(lt)
    ensures forall y | y in s && lt(y, x) :: !(Tied(y, z, lt) && Tied(x, z, lt))
  {}

  lemma TiesStep<T>(y: T, s: seq<T>, z: T, lt: (T, T) -> bool)
    ensures Ties([y] + s, z, lt) == (if Tied(y, z, lt) then [y] else []) + Ties(s, z, lt)
  {
    assert ([y] + s)[1..] == s;
  }

  /** Sorting keeps tied elements in the order they came. */
  lemma {:induction false} SortStable<T(!new)>(s: seq<T>, z: T, lt: (T, T) -> bool)
    requires WeakOrder(lt)
    ensures Ties(Sort(s, lt), z, lt) == Ties(s, z, lt)
  {
    if s != [] {
      SortStable(s[1..], z, lt);
      NotBothTied(Sort(s[1..], lt), s[0], z, lt);
      InsertStable(s[0], Sort(s[1..], lt), z, lt);
    }
  }

  lemma {:induction false} AscendingUnique<T(!new)>(a: seq<T>, b: seq<T>, lt: (T, T) -> bool)
    requires StrictOrder(lt) && Ascending(a, lt) && Ascending(b, lt)
    requires multiset(a) == multiset(b)
    ensures a == b
    decreases |a|
  {
    assert |a| == |multiset(a)| == |multiset(b)| == |b|;
    if a != [] {
      SameLeast(a, b, lt);
      assert a == [a[0]] + a[1..] && b == [b[0]] + b[1..];
      assert multiset(a[1..]) == multiset(a) - multiset{a[0]};
      assert multiset(b[1..]) == multiset(b) - multiset{b[0]};
      AscendingUnique(a[1..], b[1..], lt);
    }
  }

  lemma SameLeast<T(!new)>(a: seq<T>, b: seq<T>, lt: (T, T) -> bool)
    requires StrictOrder(lt) && Ascending(a, lt) && Ascending(b, lt)
    requires multiset(a) == multiset(b) && a != [] && b != []
    ensures a[0] == b[0]
  {
    assert a[0] in multiset(b) && b[0] in multiset(a);
    var i :| 0 <= i < |b| && b[i] == a[0];
    var j :| 0 <= j < |a| && a[j] == b[0];
    if i > 0 && j > 0 {
      assert false;
    }
  }

  /** Sorting forgets the order the elements came in. */
  lemma SortCanonical<T(!new)>(a: seq<T>, b: seq<T>, lt: (T, T) -> bool)
    requires StrictOrder(lt) && Comparable(a, lt) && multiset(a) == multiset(b)
    ensures Sort(a, lt) == Sort(b, lt)
  {
    SortAscending(a, lt);
    ComparableCarries(a, b, lt);
    SortAscending(b, lt);
    AscendingUnique(Sort(a, lt), Sort(b, lt), lt);
  }

  lemma {:induction false} ComparableCarries<T(!new)>(a: seq<T>, b: seq<T>, lt: (T, T) -> bool)
    requires StrictOrder(lt) && Comparable(a, lt) && multiset(a) == multiset(b)
    ensures Comparable(b, lt)
  {
    forall i, j | 0 <= i < |b| && 0 <= j < |b| && i != j ensures lt(b[i], b[j]) || lt(b[j], b[i]) {
      assert b[i] in multiset(a) && b[j] in multiset(a);
      var k :| 0 <= k < |a| && a[k] == b[i];
      var l :| 0 <= l < |a| && a[l] == b[j];
      if k == l {
        TwiceThere(b, i, j);
        var m := OtherPlace(a, k);
        assert false;
      }
    }
  }

  lemma TwiceThere<T>(b: seq<T>, i: nat, j: nat)
    requires i < |b| && j < |b| && i != j && b[i] == b[j]
    ensures multiset(b)[b[i]] >= 2
  {
    var lo, hi := if i < j then i else j, if i < j then j else i;
    assert b == b[..lo] + [b[lo]] + b[lo + 1..hi] + [b[hi]] + b[hi + 1..];
  }

  lemma OtherPlace<T>(a: seq<T>, k: nat) returns (m: nat)
    requires k < |a| && multiset(a)[a[k]] >= 2
    ensures m < |a| && m != k && a[m] == a[k]
  {
    assert a == a[..k] + [a[k]] + a[k + 1..];
    if a[k] in a[..k] {
      m :| 0 <= m < k && a[m] == a[k];
    } else {
      assert a[k] in multiset(a[k + 1..]);
      var n :| 0 <= n < |a[k + 1..]| && a[k + 1..][n] == a[k];
      m := k + 1 + n;
    }
  }
}
