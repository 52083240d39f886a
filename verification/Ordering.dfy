/** Sorting by a strict total order, and why a sorted duplicate-free list is determined by its elements. */
module Ordering {

  type Less<!T> = (T, T) -> bool

  ghost predicate StrictTotal<T(!new)>(lt: Less<T>) {
    && (forall x :: !lt(x, x))
    && (forall x, y, z :: lt(x, y) && lt(y, z) ==> lt(x, z))
    && (forall x, y :: x == y || lt(x, y) || lt(y, x))
  }

  ghost predicate StrictlySorted<T>(lt: Less<T>, s: seq<T>) {
    forall i, j :: 0 <= i < j < |s| ==> lt(s[i], s[j])
  }

  /** Ties allowed. */
  ghost predicate Sorted<T>(lt: Less<T>, s: seq<T>) {
    forall i, j :: 0 <= i < j < |s| ==> !lt(s[j], s[i])
  }

  function InsertInto<T>(lt: Less<T>, x: T, s: seq<T>): seq<T> {
    if s == [] || !lt(s[0], x) then [x] + s else [s[0]] + InsertInto(lt, x, s[1..])
  }

  function Sort<T>(lt: Less<T>, s: seq<T>): seq<T> {
    if s == [] then [] else InsertInto(lt, s[0], Sort(lt, s[1..]))
  }

  /** `dedup`: drop every element equal to the one before it. */
  function DedupAdjacent<T(==)>(s: seq<T>): seq<T> {
    if |s| < 2 then s
    else if s[0] == s[1] then DedupAdjacent(s[1..])
    else [s[0]] + DedupAdjacent(s[1..])
  }

  lemma {:induction false} InsertIntoElements<T>(lt: Less<T>, x: T, s: seq<T>)
    ensures forall y :: y in InsertInto(lt, x, s) <==> y == x || y in s
    decreases |s|
  {
    if s != [] && lt(s[0], x) {
      InsertIntoElements(lt, x, s[1..]);
      assert s == [s[0]] + s[1..];
    }
  }

  lemma {:induction false} InsertIntoSorted<T(!new)>(lt: Less<T>, x: T, s: seq<T>)
    requires StrictTotal(lt) && Sorted(lt, s)
    ensures Sorted(lt, InsertInto(lt, x, s))
    decreases |s|
  {
    if s == [] || !lt(s[0], x) {
      forall y | y in s ensures !lt(y, x) {
        var k :| 0 <= k < |s| && s[k] == y;
        assert k > 0 ==> !lt(s[k], s[0]);
      }
    } else {
      InsertIntoSorted(lt, x, s[1..]);
      InsertIntoElements(lt, x, s[1..]);
      forall y | y in InsertInto(lt, x, s[1..]) ensures !lt(y, s[0]) {
        if y in s[1..] {
          var k :| 0 <= k < |s[1..]| && s[1..][k] == y;
          assert y == s[k + 1];
        }
      }
    }
  }

  lemma {:induction false} SortSorts<T(!new)>(lt: Less<T>, s: seq<T>)
    requires StrictTotal(lt)
    ensures Sorted(lt, Sort(lt, s))
    ensures forall y :: y in Sort(lt, s) <==> y in s
    decreases |s|
  {
    if s != [] {
      SortSorts(lt, s[1..]);
      InsertIntoSorted(lt, s[0], Sort(lt, s[1..]));
      InsertIntoElements(lt, s[0], Sort(lt, s[1..]));
      assert s == [s[0]] + s[1..];
    }
  }

  lemma {:induction false} DedupSorted<T(!new)>(lt: Less<T>, s: seq<T>)
    requires StrictTotal(lt) && Sorted(lt, s)
    ensures StrictlySorted(lt, DedupAdjacent(s))
    ensures forall y :: y in DedupAdjacent(s) <==> y in s
    decreases |s|
  {
    if |s| >= 2 {
      var rest := DedupAdjacent(s[1..]);
      DedupSorted(lt, s[1..]);
      assert s == [s[0]] + s[1..];
      if s[0] != s[1] {
        forall y | y in rest ensures lt(s[0], y) {
          var k :| 0 <= k < |s[1..]| && s[1..][k] == y;
          assert y == s[k + 1] && !lt(s[k + 1], s[0]) && !lt(s[1], s[0]);
          assert k > 0 ==> !lt(s[k + 1], s[1]);
        }
        var t := [s[0]] + rest;
        forall i, j | 0 <= i < j < |t| ensures lt(t[i], t[j]) {
          assert t[j] in rest;
        }
      } else {
        assert s[0] in s[1..];
      }
    }
  }

  /** Two strictly sorted lists with the same elements are the same list. */
  lemma {:induction false} SortedListIsUnique<T(!new)>(lt: Less<T>, a: seq<T>, b: seq<T>)
    requires StrictTotal(lt) && StrictlySorted(lt, a) && StrictlySorted(lt, b)
    requires forall x :: x in a <==> x in b
    ensures a == b
    decreases |a|
  {
    assert a != [] ==> a[0] in b;
    assert b != [] ==> b[0] in a;
    if a != [] && b != [] {
      var i :| 0 <= i < |b| && b[i] == a[0];
      var j :| 0 <= j < |a| && a[j] == b[0];
      assert a[0] == b[0];
      assert a == [a[0]] + a[1..] && b == [b[0]] + b[1..];
      forall x ensures x in a[1..] <==> x in b[1..] {
        if x in a[1..] {
          var k :| 0 <= k < |a[1..]| && a[1..][k] == x;
          assert lt(a[0], a[k + 1]);
          assert x in a;
        }
        if x in b[1..] {
          var k :| 0 <= k < |b[1..]| && b[1..][k] == x;
          assert lt(b[0], b[k + 1]);
          assert x in b;
        }
      }
      SortedListIsUnique(lt, a[1..], b[1..]);
    }
  }
}
