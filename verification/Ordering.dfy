/**
 Byte-wise string comparison and the stable sort of the standard library, as used on
 namespace declarations and attributes.
 */
module Ordering {

  datatype Ordering = Less | Equal | Greater {
    function Then(other: Ordering): Ordering {
      if this == Equal then other else this
    }
  }

  function StrCmp(a: string, b: string): Ordering {
    if a == "" then (if b == "" then Equal else Less)
    else if b == "" then Greater
    else if a[0] < b[0] then Less
    else if b[0] < a[0] then Greater
    else StrCmp(a[1..], b[1..])
  }

  /** `StrCmp` is a total order whose equality is equality of strings. */
  lemma {:induction false} StrCmpTotal(a: string, b: string)
    ensures StrCmp(a, b) == Equal <==> a == b
    ensures StrCmp(a, b) == Less <==> StrCmp(b, a) == Greater
  {
    if a != "" && b != "" {
      StrCmpTotal(a[1..], b[1..]);
      assert a == [a[0]] + a[1..] && b == [b[0]] + b[1..];
    }
  }

  lemma {:induction false} StrCmpTransitive(a: string, b: string, c: string)
    requires StrCmp(a, b) != Greater && StrCmp(b, c) != Greater
    ensures StrCmp(a, c) != Greater
    ensures StrCmp(a, c) == Equal ==> a == b == c
  {
    StrCmpTotal(a, b);
    StrCmpTotal(b, c);
    StrCmpTotal(a, c);
    if a != "" && b != "" && c != "" && a[0] == b[0] == c[0] {
      StrCmpTransitive(a[1..], b[1..], c[1..]);
      assert a == [a[0]] + a[1..] && b == [b[0]] + b[1..] && c == [c[0]] + c[1..];
    } else if a == c {
      StrCmpTotal(b, a);
    }
  }

  /** Dictionary order, on characters: `a` comes before `b` if it is a proper prefix of `b`, or if the
      first place where they differ holds a smaller character in `a`. */
  ghost predicate Precedes(a: string, b: string) {
    exists k: nat :: k <= |a| && k < |b| && a[..k] == b[..k] && (k == |a| || a[k] < b[k])
  }

  /** `StrCmp` decides dictionary order. */
  lemma {:induction false} StrCmpIsPrecedes(a: string, b: string)
    ensures StrCmp(a, b) == Less <==> Precedes(a, b)
  {
    if a == "" || b == "" {
      assert a[..0] == b[..0];
    } else {
      var x, y := a[1..], b[1..];
      StrCmpIsPrecedes(x, y);
      if Precedes(a, b) {
        var k: nat :| k <= |a| && k < |b| && a[..k] == b[..k] && (k == |a| || a[k] < b[k]);
        if k > 0 {
          assert a[0] == a[..k][0] && b[0] == b[..k][0];
          assert x[..k - 1] == a[..k][1..] && y[..k - 1] == b[..k][1..];
        }
      }
      if a[0] == b[0] && Precedes(x, y) {
        var k: nat :| k <= |x| && k < |y| && x[..k] == y[..k] && (k == |x| || x[k] < y[k]);
        assert a[..k + 1] == [a[0]] + x[..k] && b[..k + 1] == [b[0]] + y[..k];
      }
      if a[0] < b[0] {
        assert a[..0] == b[..0];
      }
    }
  }

  // ---------------------------------------------------------------- sorting

  ghost predicate TotalPreorder<T(!new)>(le: (T, T) -> bool) {
    && (forall a, b :: le(a, b) || le(b, a))
    && (forall a, b, c :: le(a, b) && le(b, c) ==> le(a, c))
  }

  /** Every earlier element is strictly below every later one. */
  ghost predicate Strict<T>(le: (T, T) -> bool, s: seq<T>) {
    forall i, j :: 0 <= i < j < |s| ==> le(s[i], s[j]) && !le(s[j], s[i])
  }

  /** No two positions hold elements that compare equal. */
  ghost predicate Distinct<T>(le: (T, T) -> bool, s: seq<T>) {
    forall i, j :: 0 <= i < j < |s| ==> !(le(s[i], s[j]) && le(s[j], s[i]))
  }

  function Insert<T>(le: (T, T) -> bool, x: T, s: seq<T>): seq<T> {
    if s == [] then [x]
    else if le(x, s[0]) then [x] + s
    else [s[0]] + Insert(le, x, s[1..])
  }

  /** Stable sort: an element goes before the later ones it ties with. */
  function Sort<T>(le: (T, T) -> bool, s: seq<T>): seq<T> {
    if s == [] then [] else Insert(le, s[0], Sort(le, s[1..]))
  }

  lemma {:induction false} InsertMultiset<T>(le: (T, T) -> bool, x: T, s: seq<T>)
    ensures multiset(Insert(le, x, s)) == multiset(s) + multiset{x}
  {
    if s != [] && !le(x, s[0]) {
      InsertMultiset(le, x, s[1..]);
      assert s == [s[0]] + s[1..];
    }
  }

  lemma {:induction false} SortMultiset<T>(le: (T, T) -> bool, s: seq<T>)
    ensures multiset(Sort(le, s)) == multiset(s)
  {
    if s != [] {
      SortMultiset(le, s[1..]);
      InsertMultiset(le, s[0], Sort(le, s[1..]));
      assert s == [s[0]] + s[1..];
    }
  }

  lemma {:induction false} InsertStrict<T(!new)>(le: (T, T) -> bool, x: T, s: seq<T>)
    requires TotalPreorder(le) && Strict(le, s)
    requires forall y :: y in s ==> !(le(x, y) && le(y, x))
    ensures Strict(le, Insert(le, x, s))
  {
    if s == [] {
    } else if le(x, s[0]) {
      forall j | 0 <= j < |s| ensures le(x, s[j]) && !le(s[j], x) {
        assert s[j] in s;
        assert le(s[0], s[j]);
      }
    } else {
      InsertStrict(le, x, s[1..]);
      var r := Insert(le, x, s[1..]);
      InsertMultiset(le, x, s[1..]);
      forall j | 0 <= j < |r| ensures le(s[0], r[j]) && !le(r[j], s[0]) {
        assert r[j] in multiset(r);
        assert r[j] == x || r[j] in s[1..];
      }
    }
  }

  /** Sorting a list without ties gives a strictly increasing list. */
  lemma {:induction false} SortStrict<T(!new)>(le: (T, T) -> bool, s: seq<T>)
    requires TotalPreorder(le) && Distinct(le, s)
    ensures Strict(le, Sort(le, s))
  {
    if s != [] {
      SortStrict(le, s[1..]);
      SortMultiset(le, s[1..]);
      var r := Sort(le, s[1..]);
      forall y | y in r ensures !(le(s[0], y) && le(y, s[0])) {
        assert y in multiset(r);
        assert y in s[1..];
        var k :| 0 <= k < |s[1..]| && s[1..][k] == y;
        assert s[k + 1] == y;
      }
      InsertStrict(le, s[0], r);
    }
  }

  lemma StrictTail<T(!new)>(le: (T, T) -> bool, s: seq<T>, x: T)
    requires Strict(le, s) && s != []
    ensures x in s[1..] <==> x in s && x != s[0]
    ensures x in s ==> x == s[0] || !le(x, s[0])
  {
    if x in s {
      var k :| 0 <= k < |s| && s[k] == x;
      assert k > 0 ==> s[1..][k - 1] == x;
    }
    if x in s[1..] {
      var k :| 0 <= k < |s[1..]| && s[1..][k] == x;
      assert s[k + 1] == x;
    }
  }

  /** A strictly increasing list is determined by its elements. */
  lemma {:induction false} StrictUnique<T(!new)>(le: (T, T) -> bool, a: seq<T>, b: seq<T>)
    requires TotalPreorder(le) && Strict(le, a) && Strict(le, b)
    requires forall x :: x in a <==> x in b
    ensures a == b
  {
    assert a != [] ==> a[0] in b;
    assert b != [] ==> b[0] in a;
    if a != [] {
      StrictTail(le, a, b[0]);
      StrictTail(le, b, a[0]);
      assert a[0] == b[0];
      forall x ensures x in a[1..] <==> x in b[1..] {
        StrictTail(le, a, x);
        StrictTail(le, b, x);
      }
      StrictUnique(le, a[1..], b[1..]);
      assert a == [a[0]] + a[1..] && b == [b[0]] + b[1..];
    }
  }

  /** Sorting leaves a strictly increasing list alone. */
  lemma {:induction false} SortOfStrict<T(!new)>(le: (T, T) -> bool, s: seq<T>)
    requires Strict(le, s)
    ensures Sort(le, s) == s
  {
    if s != [] {
      SortOfStrict(le, s[1..]);
      assert s == [s[0]] + s[1..];
    }
  }
}
