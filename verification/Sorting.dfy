/** Sorting by a text key, as the standard library's stable sorts do, and the
    order of texts they go by. */
module Sorting {

  /** `a <= b`, character by character. */
  predicate NotAfter(a: string, b: string) {
    a == "" || (b != "" && (a[0] < b[0] || (a[0] == b[0] && NotAfter(a[1..], b[1..]))))
  }

  lemma {:induction false} NotAfterIsAnOrder(a: string, b: string)
    ensures NotAfter(a, a)
    ensures NotAfter(a, b) || NotAfter(b, a)
    ensures NotAfter(a, b) && NotAfter(b, a) ==> a == b
  {
    if a != "" {
      NotAfterIsAnOrder(a[1..], if b == "" then "" else b[1..]);
      if b != "" && a[0] == b[0] {
        assert a == [a[0]] + a[1..] && b == [b[0]] + b[1..];
      }
    }
  }

  lemma {:induction false} NotAfterChains(a: string, b: string, c: string)
    requires NotAfter(a, b) && NotAfter(b, c)
    ensures NotAfter(a, c)
  {
    if a != "" && a[0] == b[0] == c[0] {
      NotAfterChains(a[1..], b[1..], c[1..]);
    }
  }

  predicate Ordered<T>(s: seq<T>, key: T -> string) {
    forall i, j :: 0 <= i < j < |s| ==> NotAfter(key(s[i]), key(s[j]))
  }

  /** Those with this key, in the order they stand. */
  function WithKey<T>(s: seq<T>, key: T -> string, k: string): seq<T> {
    if s == [] then []
    else WithKey(s[..|s| - 1], key, k) + if key(s[|s| - 1]) == k then [s[|s| - 1]] else []
  }

  function Inserted<T>(s: seq<T>, x: T, key: T -> string): (r: seq<T>)
    ensures multiset(r) == multiset(s) + multiset{x}
  {
    if s == [] || NotAfter(key(s[|s| - 1]), key(x)) then s + [x]
    else
      assert s == s[..|s| - 1] + [s[|s| - 1]];
      Inserted(s[..|s| - 1], x, key) + [s[|s| - 1]]
  }

  /** Insertion by a key, each after its equals. */
  function SortedBy<T>(s: seq<T>, key: T -> string): (r: seq<T>)
    ensures multiset(r) == multiset(s)
  {
    if s == [] then []
    else
      assert s == s[..|s| - 1] + [s[|s| - 1]];
      Inserted(SortedBy(s[..|s| - 1], key), s[|s| - 1], key)
  }

  lemma WithKeyOneMore<T>(s: seq<T>, x: T, key: T -> string, k: string)
    ensures WithKey(s + [x], key, k) == WithKey(s, key, k) + if key(x) == k then [x] else []
  {
    assert (s + [x])[..|s + [x]| - 1] == s;
  }

  lemma OrderedOneMore<T>(s: seq<T>, x: T, key: T -> string)
    requires Ordered(s, key) && forall y :: y in s ==> NotAfter(key(y), key(x))
    ensures Ordered(s + [x], key)
  {
  }

  lemma {:induction false} InsertedInOrder<T>(s: seq<T>, x: T, key: T -> string)
    requires Ordered(s, key)
    ensures Ordered(Inserted(s, x, key), key)
  {
    if s == [] {
    } else {
      var most, last := s[..|s| - 1], s[|s| - 1];
      NotAfterIsAnOrder(key(last), key(x));
      if NotAfter(key(last), key(x)) {
        forall i | 0 <= i < |s| ensures NotAfter(key(s[i]), key(x)) {
          if i < |s| - 1 {
            NotAfterChains(key(s[i]), key(last), key(x));
          }
        }
        OrderedOneMore(s, x, key);
      } else {
        InsertedInOrder(most, x, key);
        var r := Inserted(most, x, key);
        forall y | y in r ensures NotAfter(key(y), key(last)) {
          assert y in multiset(r);
          if y != x {
            assert y in multiset(most);
            var i :| 0 <= i < |most| && most[i] == y;
            assert s[i] == y;
          }
        }
        OrderedOneMore(r, last, key);
      }
    }
  }

  lemma {:induction false} InsertedAmongEquals<T>(s: seq<T>, x: T, key: T -> string, k: string)
    ensures WithKey(Inserted(s, x, key), key, k) == WithKey(s, key, k) + if key(x) == k then [x] else []
  {
    if s == [] || NotAfter(key(s[|s| - 1]), key(x)) {
      WithKeyOneMore(s, x, key, k);
    } else {
      var most, last := s[..|s| - 1], s[|s| - 1];
      NotAfterIsAnOrder(key(last), key(x));
      InsertedAmongEquals(most, x, key, k);
      WithKeyOneMore(Inserted(most, x, key), last, key, k);
    }
  }

  /** The result is in order, and keeps the order of those with equal keys. */
  lemma {:induction false} SortedIsStable<T>(s: seq<T>, key: T -> string, k: string)
    ensures Ordered(SortedBy(s, key), key)
    ensures WithKey(SortedBy(s, key), key, k) == WithKey(s, key, k)
  {
    if s != [] {
      var most, last := s[..|s| - 1], s[|s| - 1];
      SortedIsStable(most, key, k);
      InsertedInOrder(SortedBy(most, key), last, key);
      InsertedAmongEquals(SortedBy(most, key), last, key, k);
    }
  }

  /** What has one key of an ordered list is in order by any other. */
  lemma {:induction false} WithKeyStaysOrdered<T>(s: seq<T>, key: T -> string, k: string, other: T -> string)
    requires Ordered(s, other)
    ensures Ordered(WithKey(s, key, k), other)
    ensures forall x :: x in WithKey(s, key, k) ==> x in s
  {
    if s != [] {
      var most, last := s[..|s| - 1], s[|s| - 1];
      WithKeyStaysOrdered(most, key, k, other);
      forall x | x in WithKey(most, key, k) ensures x in s && NotAfter(other(x), other(last)) {
        var i :| 0 <= i < |most| && most[i] == x;
        assert s[i] == x;
      }
      OrderedOneMore(WithKey(most, key, k), last, other);
      assert WithKey(most, key, k) + [] == WithKey(most, key, k);
    }
  }

  lemma {:induction false} WithKeyHas<T>(s: seq<T>, key: T -> string, k: string)
    ensures WithKey(s, key, k) == [] <==> forall x :: x in s ==> key(x) != k
  {
    if s != [] {
      var most, last := s[..|s| - 1], s[|s| - 1];
      WithKeyHas(most, key, k);
      assert s == most + [last];
    }
  }

  lemma NothingByKey<T>(s: seq<T>, key: T -> string)
    ensures s != [] ==> exists k :: WithKey(s, key, k) != []
  {
    if s != [] {
      assert WithKey(s, key, key(s[|s| - 1])) != [];
    }
  }

  /** The last of an ordered list has the largest key. */
  lemma LastIsLargest<T>(s: seq<T>, key: T -> string, k: string)
    requires s != [] && Ordered(s, key) && WithKey(s, key, k) != []
    ensures NotAfter(k, key(s[|s| - 1]))
  {
    WithKeyHas(s, key, k);
    var x :| x in s && key(x) == k;
    var i :| 0 <= i < |s| && s[i] == x;
    NotAfterIsAnOrder(k, k);
  }

  /** Each key has the same in both, in the same order. */
  ghost predicate SameByKey<T>(a: seq<T>, b: seq<T>, key: T -> string) {
    forall k :: WithKey(a, key, k) == WithKey(b, key, k)
  }

  /** Those with each key, in their order, and the order of the keys leave one
      list: there is one stable sorting. */
  lemma {:induction false} OneOrderedList<T>(a: seq<T>, b: seq<T>, key: T -> string)
    requires Ordered(a, key) && Ordered(b, key) && SameByKey(a, b, key)
    ensures a == b
    decreases |a|
  {
    if a == [] {
      NothingByKey(b, key);
    } else {
      LastKeysAgree(a, b, key);
      hide WithKey, Ordered, SameByKey;
      SameLast(a, b, key);
      OrderedFront(a, key);
      OrderedFront(b, key);
      OneOrderedList(a[..|a| - 1], b[..|b| - 1], key);
      assert a == a[..|a| - 1] + [a[|a| - 1]] && b == b[..|b| - 1] + [b[|b| - 1]];
    }
  }

  lemma LastKeysAgree<T>(a: seq<T>, b: seq<T>, key: T -> string)
    requires a != [] && Ordered(a, key) && Ordered(b, key) && SameByKey(a, b, key)
    ensures b != [] && key(a[|a| - 1]) == key(b[|b| - 1])
  {
    hide WithKey, Ordered, NotAfter;
    var ka := key(a[|a| - 1]);
    HasItsLast(a, key);
    assert WithKey(b, key, ka) != [];
    NoneOfNone(b, key, ka);
    var kb := key(b[|b| - 1]);
    HasItsLast(b, key);
    LastIsLargest(a, key, kb);
    LastIsLargest(b, key, ka);
    NotAfterIsAnOrder(ka, kb);
  }

  lemma NoneOfNone<T>(s: seq<T>, key: T -> string, k: string)
    ensures s == [] ==> WithKey(s, key, k) == []
  {
  }

  lemma HasItsLast<T>(s: seq<T>, key: T -> string)
    requires s != []
    ensures WithKey(s, key, key(s[|s| - 1])) != []
  {
  }

  lemma OrderedFront<T>(s: seq<T>, key: T -> string)
    requires s != [] && Ordered(s, key)
    ensures Ordered(s[..|s| - 1], key)
  {
  }

  lemma SameLast<T>(a: seq<T>, b: seq<T>, key: T -> string)
    requires a != [] && b != [] && key(a[|a| - 1]) == key(b[|b| - 1]) && SameByKey(a, b, key)
    ensures a[|a| - 1] == b[|b| - 1] && SameByKey(a[..|a| - 1], b[..|b| - 1], key)
  {
    var most, less := a[..|a| - 1], b[..|b| - 1];
    var x, y := a[|a| - 1], b[|b| - 1];
    var ra, rb := WithKey(most, key, key(x)), WithKey(less, key, key(x));
    assert WithKey(a, key, key(x)) == ra + [x] && WithKey(b, key, key(x)) == rb + [y];
    assert ra == (ra + [x])[..|ra + [x]| - 1] && rb == (rb + [y])[..|rb + [y]| - 1];
    assert x == (ra + [x])[|ra + [x]| - 1] && y == (rb + [y])[|rb + [y]| - 1];
    forall k ensures WithKey(most, key, k) == WithKey(less, key, k) {
      if k != key(x) {
        assert WithKey(a, key, k) == WithKey(most, key, k) + [] == WithKey(most, key, k);
        assert WithKey(b, key, k) == WithKey(less, key, k) + [] == WithKey(less, key, k);
      }
    }
  }

  /** Two keys may be asked for in either order. */
  lemma {:induction false} KeysCommute<T>(s: seq<T>, key: T -> string, k: string, other: T -> string, m: string)
    ensures WithKey(WithKey(s, key, k), other, m) == WithKey(WithKey(s, other, m), key, k)
  {
    if s != [] {
      var most, last := s[..|s| - 1], s[|s| - 1];
      KeysCommute(most, key, k, other, m);
      if key(last) == k {
        WithKeyOneMore(WithKey(most, key, k), last, other, m);
      }
      if other(last) == m {
        WithKeyOneMore(WithKey(most, other, m), last, key, k);
      }
      assert WithKey(most, key, k) + [] == WithKey(most, key, k);
      assert WithKey(most, other, m) + [] == WithKey(most, other, m);
    }
  }
}
