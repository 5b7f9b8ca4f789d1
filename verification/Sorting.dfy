/** sort.Slice, by what it promises, and the byte order of strings. */
module Sorting {
  ghost predicate StrictOrder<T(!new)>(less: (T, T) -> bool) {
    && (forall x :: !less(x, x))
    && forall x, y, z :: less(x, y) && less(y, z) ==> less(x, z)
  }

  ghost predicate Ascending<T>(s: seq<T>, less: (T, T) -> bool) {
    forall i, j | 0 <= i < j < |s| :: !less(s[j], s[i])
  }

  lemma InsertAscending<T(!new)>(s: seq<T>, k: nat, x: T, less: (T, T) -> bool)
    requires StrictOrder(less) && Ascending(s, less) && k <= |s|
    requires forall i | 0 <= i < k :: !less(x, s[i])
    requires k < |s| ==> less(x, s[k])
    ensures Ascending(s[..k] + [x] + s[k..], less)
  {
    forall j | k <= j < |s|
      ensures !less(s[j], x)
    {
      assert j == k || !less(s[j], s[k]);
    }
    hide StrictOrder;
  }

  method Insert<T(!new)>(s: seq<T>, x: T, less: (T, T) -> bool) returns (r: seq<T>)
    requires StrictOrder(less) && Ascending(s, less)
    ensures Ascending(r, less) && multiset(r) == multiset(s) + multiset{x}
  {
    hide StrictOrder, Ascending;
    var k := 0;
    while k < |s| && !less(x, s[k])
      invariant 0 <= k <= |s| && forall i | 0 <= i < k :: !less(x, s[i])
    {
      k := k + 1;
    }
    InsertAscending(s, k, x, less);
    assert s == s[..k] + s[k..];
    r := s[..k] + [x] + s[k..];
  }

  // The order of equal elements is left open.
  method SortSlice<T(!new)>(s: seq<T>, less: (T, T) -> bool) returns (r: seq<T>)
    requires StrictOrder(less)
    ensures Ascending(r, less) && multiset(r) == multiset(s)
  {
    hide StrictOrder;
    r := [];
    for i := 0 to |s|
      invariant Ascending(r, less) && multiset(r) == multiset(s[..i])
    {
      assert s[..i + 1] == s[..i] + [s[i]];
      r := Insert(r, s[i], less);
    }
    assert s[..|s|] == s;
  }

  predicate TextLess(a: string, b: string) {
    b != "" && (a == "" || a[0] < b[0] || (a[0] == b[0] && TextLess(a[1..], b[1..])))
  }

  lemma {:induction false} TextLessTransitive(a: string, b: string, c: string)
    requires TextLess(a, b) && TextLess(b, c)
    ensures TextLess(a, c)
  {
    if a != "" && a[0] == b[0] == c[0] {
      TextLessTransitive(a[1..], b[1..], c[1..]);
    }
  }

  lemma {:induction false} TextLessIrreflexive(a: string)
    ensures !TextLess(a, a)
  {
    if a != "" {
      TextLessIrreflexive(a[1..]);
    }
  }

  lemma {:induction false} TextLessTotal(a: string, b: string)
    requires a != b
    ensures TextLess(a, b) || TextLess(b, a)
  {
    if a != "" && b != "" && a[0] == b[0] {
      assert a == [a[0]] + a[1..] && b == [b[0]] + b[1..];
      TextLessTotal(a[1..], b[1..]);
    }
  }

  // The texts agree up to here, and there the first one ends or has the smaller character.
  predicate LessAt(a: string, b: string, k: nat) {
    k <= |a| && k < |b| && a[..k] == b[..k] && (k == |a| || a[k] < b[k])
  }

  lemma LessAtStarts(a: string, b: string, k: nat)
    requires LessAt(a, b, k)
    ensures k > 0 ==> a != "" && b != "" && a[0] == b[0]
  {
    if k > 0 {
      assert a[..k][0] == b[..k][0];
    }
  }

  lemma {:induction false} TextLessMeans(a: string, b: string)
    ensures TextLess(a, b) <==> exists k :: LessAt(a, b, k)
  {
    if a == "" || b == "" || a[0] != b[0] {
      if TextLess(a, b) {
        assert LessAt(a, b, 0);
      }
      if k: nat :| LessAt(a, b, k) {
        LessAtStarts(a, b, k);
      }
    } else {
      TextLessMeans(a[1..], b[1..]);
      assert a == [a[0]] + a[1..] && b == [b[0]] + b[1..];
      if k: nat :| LessAt(a[1..], b[1..], k) {
        assert a[..k + 1] == [a[0]] + a[1..][..k] && b[..k + 1] == [b[0]] + b[1..][..k];
        assert LessAt(a, b, k + 1);
      }
      if k: nat :| LessAt(a, b, k) {
        assert k > 0 && a[1..][..k - 1] == a[..k][1..] && b[1..][..k - 1] == b[..k][1..];
        assert LessAt(a[1..], b[1..], k - 1);
      }
    }
  }
}
