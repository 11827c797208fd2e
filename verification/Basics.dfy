/** Shared vocabulary: optional values, error returns, machine bounds, and the
    byte order in which the database and the ordered collections sort text. */
module Basics {

  datatype Option<+T> = None | Some(value: T)

  /** A call's outcome. The text of an error is not modelled. */
  datatype Result<+T> = Ok(value: T) | Err

  const I64_MAX: int := 0x7fff_ffff_ffff_ffff
  const USIZE_MAX: int := 0xffff_ffff_ffff_ffff

  function SaturatingAdd(a: nat, b: nat): (r: nat)
    ensures a <= USIZE_MAX ==> a <= r <= USIZE_MAX
  {
    if a + b > USIZE_MAX then USIZE_MAX else a + b
  }

  predicate StartsWith(text: string, prefix: string) {
    prefix <= text
  }

  /** The mark occurs somewhere in the text. */
  predicate Contains(text: string, mark: string) {
    StartsWith(text, mark) || (text != [] && Contains(text[1..], mark))
  }

  /** Byte-wise lexicographic order, strict. */
  predicate Before(a: string, b: string) {
    if b == [] then false
    else if a == [] then true
    else a[0] < b[0] || (a[0] == b[0] && Before(a[1..], b[1..]))
  }

  lemma {:induction false} BeforeIrreflexive(a: string)
    ensures !Before(a, a)
  {
    if a != [] {
      BeforeIrreflexive(a[1..]);
    }
  }

  lemma {:induction false} BeforeTransitive(a: string, b: string, c: string)
    requires Before(a, b) && Before(b, c)
    ensures Before(a, c)
  {
    if a != [] && a[0] == b[0] == c[0] {
      BeforeTransitive(a[1..], b[1..], c[1..]);
    }
  }

  lemma {:induction false} BeforeTotal(a: string, b: string)
    ensures a == b || Before(a, b) || Before(b, a)
  {
    if a != [] && b != [] && a[0] == b[0] {
      BeforeTotal(a[1..], b[1..]);
      assert a == [a[0]] + a[1..] && b == [b[0]] + b[1..];
    }
  }

  /** Rows of a journal sort by execution id, then by sequence. */
  predicate RowBefore(a: (string, int), b: (string, int)) {
    Before(a.0, b.0) || (a.0 == b.0 && a.1 < b.1)
  }

  ghost predicate StrictOrder<T(!new)>(lt: (T, T) -> bool) {
    && (forall a :: !lt(a, a))
    && (forall a, b :: a == b || lt(a, b) || lt(b, a))
    && (forall a, b, c :: lt(a, b) && lt(b, c) ==> lt(a, c))
  }

  lemma BeforeIsStrictOrder()
    ensures StrictOrder(Before)
  {
    forall a: string ensures !Before(a, a) { BeforeIrreflexive(a); }
    forall a: string, b: string ensures a == b || Before(a, b) || Before(b, a) { BeforeTotal(a, b); }
    forall a: string, b: string, c: string | Before(a, b) && Before(b, c) ensures Before(a, c) {
      BeforeTransitive(a, b, c);
    }
  }

  lemma RowBeforeIsStrictOrder()
    ensures StrictOrder(RowBefore)
  {
    BeforeIsStrictOrder();
    assert StrictOrder(Before);
    forall a: (string, int) ensures !RowBefore(a, a) { BeforeIrreflexive(a.0); }
    forall a: (string, int), b: (string, int) ensures a == b || RowBefore(a, b) || RowBefore(b, a) {
      BeforeTotal(a.0, b.0);
      assert a == (a.0, a.1) && b == (b.0, b.1);
    }
    forall a: (string, int), b: (string, int), c: (string, int) | RowBefore(a, b) && RowBefore(b, c)
      ensures RowBefore(a, c)
    {
      if Before(a.0, b.0) && Before(b.0, c.0) { BeforeTransitive(a.0, b.0, c.0); }
    }
  }

  ghost predicate IsLeast<T(!new)>(m: T, s: set<T>, lt: (T, T) -> bool) {
    m in s && forall x :: x in s && x != m ==> lt(m, x)
  }

  /** `ORDER BY ... LIMIT 1` over a nonempty table has an answer. */
  lemma {:induction false} LeastExists<T(!new)>(s: set<T>, lt: (T, T) -> bool)
    requires s != {} && StrictOrder(lt)
    ensures exists m :: IsLeast(m, s, lt)
    decreases |s|
  {
    var x :| x in s;
    var rest := s - {x};
    assert forall y :: y in s ==> y == x || y in rest;
    if rest == {} {
      assert IsLeast(x, s, lt);
    } else {
      LeastExists(rest, lt);
      var m :| IsLeast(m, rest, lt);
      assert forall y :: y in rest && y != m ==> lt(m, y);
      if lt(x, m) {
        assert forall y :: y in rest ==> lt(x, y);
        assert IsLeast(x, s, lt);
      } else {
        assert IsLeast(m, s, lt);
      }
    }
  }

  ghost function Least<T(!new)>(s: set<T>, lt: (T, T) -> bool): (m: T)
    requires s != {} && StrictOrder(lt)
    ensures IsLeast(m, s, lt)
  {
    LeastExists(s, lt);
    var m :| IsLeast(m, s, lt);
    m
  }

  /** The first id in the order of the database. */
  ghost function LeastId(ids: set<string>): (m: string)
    requires ids != {}
    ensures m in ids && forall x :: x in ids && x != m ==> Before(m, x)
  {
    BeforeIsStrictOrder();
    Least(ids, Before)
  }

  lemma LeastIdUnique(m: string, ids: set<string>)
    requires m in ids && forall x :: x in ids && x != m ==> Before(m, x)
    ensures m == LeastId(ids)
  {
    BeforeIsStrictOrder();
    var least := LeastId(ids);
  }

  ghost function LeastRow(rows: set<(string, int)>): (m: (string, int))
    requires rows != {}
    ensures m in rows && forall x :: x in rows && x != m ==> RowBefore(m, x)
  {
    RowBeforeIsStrictOrder();
    Least(rows, RowBefore)
  }

  predicate Ascending(s: seq<string>) {
    forall i, j :: 0 <= i < j < |s| ==> Before(s[i], s[j])
  }

  lemma HeadIsMember(a: seq<string>)
    requires a != []
    ensures a[0] in a
  {
  }

  lemma HeadIsLeast(a: seq<string>)
    requires Ascending(a) && a != []
    ensures forall x :: x in a[1..] <==> x in a && x != a[0]
    ensures forall x :: x in a && x != a[0] ==> Before(a[0], x)
  {
    BeforeIsStrictOrder();
    assert a == [a[0]] + a[1..];
    assert forall k :: 1 <= k < |a| ==> Before(a[0], a[k]);
  }

  /** A set has only one ascending listing. */
  lemma {:induction false} AscendingUnique(a: seq<string>, b: seq<string>)
    requires Ascending(a) && Ascending(b)
    requires forall x :: x in a <==> x in b
    ensures a == b
  {
    if a != [] && b != [] {
      BeforeIsStrictOrder();
      HeadIsLeast(a);
      HeadIsLeast(b);
      assert a[0] in b && b[0] in a;
      assert a[0] == b[0];
      AscendingUnique(a[1..], b[1..]);
      assert a == [a[0]] + a[1..] && b == [b[0]] + b[1..];
    } else {
      if a != [] { HeadIsMember(a); }
      if b != [] { HeadIsMember(b); }
    }
  }

  /** The first id in order: `ORDER BY id LIMIT 1`, or the head of an ordered set. */
  method FirstId(ids: set<string>) returns (id: string)
    requires ids != {}
    ensures id == LeastId(ids)
  {
    ghost var least := LeastId(ids);
    id :| id in ids && forall x :: x in ids && x != id ==> Before(id, x);
    LeastIdUnique(id, ids);
  }

  /** The ordered listing of a set. */
  ghost function Sorted(s: set<string>): (listing: seq<string>)
    ensures Ascending(listing) && forall x :: x in listing <==> x in s
    decreases |s|
  {
    if s == {} then []
    else
      var first := LeastId(s);
      AscendingFrom(first, Sorted(s - {first}), s);
      [first] + Sorted(s - {first})
  }

  lemma AscendingFrom(first: string, rest: seq<string>, s: set<string>)
    requires first in s && forall x :: x in s && x != first ==> Before(first, x)
    requires Ascending(rest) && forall x :: x in rest <==> x in s - {first}
    ensures Ascending([first] + rest) && forall x :: x in [first] + rest <==> x in s
  {
    hide Before;
    var listing := [first] + rest;
    forall i, j | 0 <= i < j < |listing| ensures Before(listing[i], listing[j]) {
      assert listing[j] == rest[j - 1] && rest[j - 1] in rest;
    }
  }

  lemma SortedUnique(a: seq<string>, s: set<string>)
    requires Ascending(a) && forall x :: x in a <==> x in s
    ensures a == Sorted(s)
  {
    AscendingUnique(a, Sorted(s));
  }

  /** Iterating over an ordered set. */
  method SortedKeys(s: set<string>) returns (listing: seq<string>)
    ensures listing == Sorted(s)
  {
    listing := [];
    var left := s;
    while left != {}
      invariant listing + Sorted(left) == Sorted(s)
      decreases left
    {
      var first := FirstId(left);
      listing, left := listing + [first], left - {first};
    }
  }
}
