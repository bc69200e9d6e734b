/**
 * Text ordering and the stable sort used by every listing.
 *
 * SQLite compares `TEXT` columns with the BINARY collation, which orders
 * strings by their characters one after the other, a proper prefix first.
 * The page loader orders tracks by their `Y-m-d` dates; on such dates the
 * same lexicographic order is the chronological one.
 */
module Ordering {

  /** Strict lexicographic order on strings, character by character. */
  predicate Below(a: string, b: string)
    decreases |a|
  {
    if a == [] then b != []
    else b != [] && (a[0] < b[0] || (a[0] == b[0] && Below(a[1..], b[1..])))
  }

  lemma {:induction false} BelowIrreflexive(a: string)
    ensures !Below(a, a)
    decreases |a|
  {
    if a != [] {
      BelowIrreflexive(a[1..]);
    }
  }

  lemma {:induction false} BelowAsymmetric(a: string, b: string)
    ensures !(Below(a, b) && Below(b, a))
    decreases |a|
  {
    if a != [] && b != [] && a[0] == b[0] {
      BelowAsymmetric(a[1..], b[1..]);
    }
  }

  lemma {:induction false} BelowTransitive(a: string, b: string, c: string)
    requires Below(a, b) && Below(b, c)
    ensures Below(a, c)
    decreases |a|
  {
    if a != [] && a[0] == b[0] && b[0] == c[0] {
      BelowTransitive(a[1..], b[1..], c[1..]);
    }
  }

  /** Any two distinct strings are ordered one way or the other. */
  lemma {:induction false} BelowTotal(a: string, b: string)
    ensures a == b || Below(a, b) || Below(b, a)
    decreases |a|
  {
    if a != [] && b != [] && a[0] == b[0] {
      BelowTotal(a[1..], b[1..]);
      if a[1..] == b[1..] {
        assert a == [a[0]] + a[1..] && b == [b[0]] + b[1..];
      }
    }
  }

  /** Comparing two strings that begin with parts of equal length compares those parts first. */
  lemma {:induction false} BelowConcat(x: string, y: string, r1: string, r2: string)
    requires |x| == |y|
    ensures Below(x + r1, y + r2) <==> Below(x, y) || (x == y && Below(r1, r2))
    decreases |x|
  {
    if x != [] {
      assert (x + r1)[1..] == x[1..] + r1;
      assert (y + r2)[1..] == y[1..] + r2;
      BelowConcat(x[1..], y[1..], r1, r2);
      if x[0] == y[0] && x[1..] == y[1..] {
        assert x == [x[0]] + x[1..] && y == [y[0]] + y[1..];
      }
    } else {
      assert x + r1 == r1 && y + r2 == r2;
    }
  }

  /** `a` must be listed strictly before `b`: ascending or descending by key. */
  predicate Precedes(a: string, b: string, descending: bool) {
    if descending then Below(b, a) else Below(a, b)
  }

  lemma PrecedesStrictOrder(a: string, b: string, c: string, descending: bool)
    ensures !Precedes(a, a, descending)
    ensures !(Precedes(a, b, descending) && Precedes(b, a, descending))
    ensures Precedes(a, b, descending) && Precedes(b, c, descending) ==> Precedes(a, c, descending)
  {
    BelowIrreflexive(a);
    BelowAsymmetric(a, b);
    if Precedes(a, b, descending) && Precedes(b, c, descending) {
      if descending {
        BelowTransitive(c, b, a);
      } else {
        BelowTransitive(a, b, c);
      }
    }
  }

  /** No element must come before one listed earlier. */
  predicate SortedBy<T>(s: seq<T>, key: T -> string, descending: bool) {
    forall i, j :: 0 <= i < j < |s| ==> !Precedes(key(s[j]), key(s[i]), descending)
  }

  /** Place `x` just before the first element it must precede (after all its equals). */
  function Insert<T>(x: T, s: seq<T>, key: T -> string, descending: bool): (r: seq<T>)
    ensures multiset(r) == multiset(s) + multiset{x}
  {
    if s == [] then [x]
    else if Precedes(key(x), key(s[0]), descending) then [x] + s
    else
      assert s == [s[0]] + s[1..];
      [s[0]] + Insert(x, s[1..], key, descending)
  }

  /** Inserting into a sorted list keeps it sorted. */
  lemma {:induction false} InsertSorted<T>(x: T, s: seq<T>, key: T -> string, descending: bool)
    requires SortedBy(s, key, descending)
    ensures SortedBy(Insert(x, s, key, descending), key, descending)
  {
    if s != [] {
      if Precedes(key(x), key(s[0]), descending) {
        InsertFront(x, s, key, descending);
      } else {
        InsertSorted(x, s[1..], key, descending);
        InsertAfterHead(x, s, key, descending);
        ConsSorted(s[0], Insert(x, s[1..], key, descending), key, descending);
      }
    }
  }

  /** When `x` goes after the head, nothing placed after the head must precede it. */
  lemma InsertAfterHead<T>(x: T, s: seq<T>, key: T -> string, descending: bool)
    requires SortedBy(s, key, descending) && s != []
    requires !Precedes(key(x), key(s[0]), descending)
    ensures forall e :: e in Insert(x, s[1..], key, descending) ==> !Precedes(key(e), key(s[0]), descending)
  {
    var rest := Insert(x, s[1..], key, descending);
    forall e | e in rest ensures !Precedes(key(e), key(s[0]), descending) {
      assert e in multiset(rest);
      if e != x {
        assert e in multiset(s[1..]);
        var k :| 0 <= k < |s[1..]| && s[1..][k] == e;
        assert e == s[k + 1];
      }
    }
  }

  /** A head that nothing after it must precede, in front of a sorted list, gives a sorted list. */
  lemma ConsSorted<T>(h: T, rest: seq<T>, key: T -> string, descending: bool)
    requires SortedBy(rest, key, descending)
    requires forall e :: e in rest ==> !Precedes(key(e), key(h), descending)
    ensures SortedBy([h] + rest, key, descending)
  {
    var r := [h] + rest;
    forall i, j | 0 <= i < j < |r| ensures !Precedes(key(r[j]), key(r[i]), descending) {
      assert r[j] == rest[j - 1];
      if i > 0 {
        assert r[i] == rest[i - 1];
      } else {
        assert rest[j - 1] in rest;
      }
    }
  }

  lemma InsertFront<T>(x: T, s: seq<T>, key: T -> string, descending: bool)
    requires SortedBy(s, key, descending) && s != []
    requires Precedes(key(x), key(s[0]), descending)
    ensures SortedBy([x] + s, key, descending)
  {
    forall j | 0 <= j < |s| ensures !Precedes(key(s[j]), key(x), descending) {
      PrecedesStrictOrder(key(s[j]), key(x), key(s[0]), descending);
      if j > 0 {
        PrecedesStrictOrder(key(s[0]), key(s[j]), key(x), descending);
      }
    }
  }

  /**
   * `orderBy(key)` / `orderBy(desc(key))` / `sort((a, b) => ...)`: an
   * insertion sort that keeps equal keys in their original order.
   */
  function SortBy<T>(s: seq<T>, key: T -> string, descending: bool): (r: seq<T>)
    ensures SortedBy(r, key, descending)
    ensures multiset(r) == multiset(s)
  {
    if s == [] then []
    else
      assert s == s[..|s| - 1] + [s[|s| - 1]];
      var sorted := SortBy(s[..|s| - 1], key, descending);
      InsertSorted(s[|s| - 1], sorted, key, descending);
      Insert(s[|s| - 1], sorted, key, descending)
  }

  /** Sorted in one direction, listed newest or largest first in the other. */
  lemma SortedMeansOrdered<T>(s: seq<T>, key: T -> string, i: int, j: int)
    requires 0 <= i < j < |s|
    ensures SortedBy(s, key, false) ==> key(s[i]) == key(s[j]) || Below(key(s[i]), key(s[j]))
    ensures SortedBy(s, key, true) ==> key(s[i]) == key(s[j]) || Below(key(s[j]), key(s[i]))
  {
    BelowTotal(key(s[i]), key(s[j]));
  }
}
