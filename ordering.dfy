/**
 * Python's ordering of `str` values (lexicographic by code point) and the
 * stable `sorted(xs, key=...)` the registry generator applies to directory listings.
 */
module Ordering {

  /** `a <= b` on Python strings. */
  predicate StrLe(a: string, b: string) {
    a == [] || (b != [] && (a[0] < b[0] || (a[0] == b[0] && StrLe(a[1..], b[1..]))))
  }

  lemma {:induction false} StrLeRefl(a: string)
    ensures StrLe(a, a)
  {
    if a != [] {
      StrLeRefl(a[1..]);
    }
  }

  lemma {:induction false} StrLeTotal(a: string, b: string)
    ensures StrLe(a, b) || StrLe(b, a)
  {
    if a != [] && b != [] && a[0] == b[0] {
      StrLeTotal(a[1..], b[1..]);
    }
  }

  lemma {:induction false} StrLeAntisym(a: string, b: string)
    requires StrLe(a, b) && StrLe(b, a)
    ensures a == b
  {
    if a != [] && b != [] {
      StrLeAntisym(a[1..], b[1..]);
      assert a == [a[0]] + a[1..] && b == [b[0]] + b[1..];
    }
  }

  lemma {:induction false} StrLeTrans(a: string, b: string, c: string)
    requires StrLe(a, b) && StrLe(b, c)
    ensures StrLe(a, c)
  {
    if a != [] && b != [] && c != [] && a[0] == b[0] && b[0] == c[0] {
      StrLeTrans(a[1..], b[1..], c[1..]);
    }
  }

  /** The keys are in non-decreasing order. */
  predicate SortedBy<T>(s: seq<T>, key: T -> string) {
    forall p, q :: 0 <= p < q < |s| ==> StrLe(key(s[p]), key(s[q]))
  }

  /** Elements of s with the same key are the same element. */
  predicate KeyInjective<T(==)>(s: seq<T>, key: T -> string) {
    forall x, y :: x in s && y in s && key(x) == key(y) ==> x == y
  }

  /** Every key in s is at least k. */
  predicate KeysFrom<T>(s: seq<T>, key: T -> string, k: string) {
    forall q :: 0 <= q < |s| ==> StrLe(k, key(s[q]))
  }

  /** An element at or below every key of a sorted list can go in front of it. */
  lemma PrependSorted<T>(x: T, s: seq<T>, key: T -> string)
    requires SortedBy(s, key) && KeysFrom(s, key, key(x))
    ensures SortedBy([x] + s, key)
  {
  }

  /** Rearranging a list and adding x keeps every key at least k when x's key is. */
  lemma RearrangedKeysFrom<T>(t: seq<T>, s: seq<T>, x: T, key: T -> string, k: string)
    requires multiset(t) == multiset(s) + multiset{x}
    requires KeysFrom(s, key, k) && StrLe(k, key(x))
    ensures KeysFrom(t, key, k)
  {
    forall q | 0 <= q < |t| ensures StrLe(k, key(t[q])) {
      assert t[q] in multiset(t);
      if t[q] != x { assert t[q] in s; }
    }
  }

  /** Insert x into the sorted list s in front of every element whose key is at least x's. */
  function Insert<T(==)>(x: T, s: seq<T>, key: T -> string): (r: seq<T>)
    requires SortedBy(s, key)
    ensures multiset(r) == multiset(s) + multiset{x}
    ensures SortedBy(r, key)
  {
    if s == [] then [x]
    else if StrLe(key(x), key(s[0])) then
      assert KeysFrom(s, key, key(x)) by {
        forall q | 0 <= q < |s| ensures StrLe(key(x), key(s[q])) {
          if q > 0 { StrLeTrans(key(x), key(s[0]), key(s[q])); }
        }
      }
      PrependSorted(x, s, key);
      [x] + s
    else
      StrLeTotal(key(s[0]), key(x));
      var tail := Insert(x, s[1..], key);
      assert s == [s[0]] + s[1..];
      assert KeysFrom(s[1..], key, key(s[0]));
      RearrangedKeysFrom(tail, s[1..], x, key, key(s[0]));
      PrependSorted(s[0], tail, key);
      [s[0]] + tail
  }

  /** `sorted(s, key=key)`: a sorted rearrangement of s. */
  function SortBy<T(==)>(s: seq<T>, key: T -> string): (r: seq<T>)
    ensures multiset(r) == multiset(s)
    ensures SortedBy(r, key)
  {
    if s == [] then []
    else
      assert s == [s[0]] + s[1..];
      Insert(s[0], SortBy(s[1..], key), key)
  }

  /**
   * The sort is stable where it can be observed on its own: a list already in key
   * order, equal keys included, comes back exactly as it was.
   */
  lemma {:induction false} SortBySortedIdentity<T>(s: seq<T>, key: T -> string)
    requires SortedBy(s, key)
    ensures SortBy(s, key) == s
  {
    if s != [] {
      assert SortedBy(s[1..], key);
      SortBySortedIdentity(s[1..], key);
      assert |s| > 1 ==> StrLe(key(s[0]), key(s[1..][0]));
      assert s == [s[0]] + s[1..];
    }
  }

  /** Sorting keeps exactly the elements it was given. */
  lemma SortByMembers<T>(s: seq<T>, key: T -> string)
    ensures forall x :: x in SortBy(s, key) <==> x in s
  {
    forall x ensures x in SortBy(s, key) <==> x in s {
      assert x in SortBy(s, key) <==> x in multiset(SortBy(s, key));
      assert x in s <==> x in multiset(s);
    }
  }

  /** Two sorted rearrangements of a list whose keys identify its elements start alike. */
  lemma SortedSameHead<T>(a: seq<T>, b: seq<T>, key: T -> string)
    requires SortedBy(a, key) && SortedBy(b, key)
    requires multiset(a) == multiset(b) && a != []
    requires KeyInjective(a, key)
    ensures b != [] && a[0] == b[0]
  {
    assert a[0] in multiset(b) && b[0] in multiset(a);
    var q :| 0 <= q < |b| && b[q] == a[0];
    var p :| 0 <= p < |a| && a[p] == b[0];
    if p == 0 { StrLeRefl(key(a[0])); }
    if q == 0 { StrLeRefl(key(b[0])); }
    StrLeAntisym(key(a[0]), key(b[0]));
  }

  /** Dropping equal first elements keeps two rearrangements rearrangements. */
  lemma TailsRearranged<T>(a: seq<T>, b: seq<T>)
    requires multiset(a) == multiset(b) && a != [] && b != [] && a[0] == b[0]
    ensures multiset(a[1..]) == multiset(b[1..])
  {
    assert a == [a[0]] + a[1..] && b == [b[0]] + b[1..];
    assert multiset(a[1..]) == multiset(a) - multiset{a[0]};
    assert multiset(b[1..]) == multiset(b) - multiset{b[0]};
  }

  /** A list whose keys identify its elements has exactly one sorted rearrangement. */
  lemma {:induction false} SortedUnique<T>(a: seq<T>, b: seq<T>, key: T -> string)
    requires SortedBy(a, key) && SortedBy(b, key)
    requires multiset(a) == multiset(b)
    requires KeyInjective(a, key)
    ensures a == b
  {
    if a != [] {
      SortedSameHead(a, b, key);
      TailsRearranged(a, b);
      assert KeyInjective(a[1..], key) by {
        forall x, y | x in a[1..] && y in a[1..] && key(x) == key(y) ensures x == y {
          assert x in a && y in a;
        }
      }
      SortedUnique(a[1..], b[1..], key);
      assert a == [a[0]] + a[1..] && b == [b[0]] + b[1..];
    }
  }

  /** `sorted` does not depend on the order its input arrives in when keys identify elements. */
  lemma SortByIgnoresOrder<T>(a: seq<T>, b: seq<T>, key: T -> string)
    requires multiset(a) == multiset(b)
    requires KeyInjective(a, key)
    ensures SortBy(a, key) == SortBy(b, key)
  {
    var sa := SortBy(a, key);
    assert KeyInjective(sa, key) by {
      forall x, y | x in sa && y in sa && key(x) == key(y) ensures x == y {
        assert x in multiset(sa) && y in multiset(sa);
        assert x in a && y in a;
      }
    }
    SortedUnique(sa, SortBy(b, key), key);
  }
}
