/** Sorting by a string key. */
module Sorting {
  import opened StringOrder

  function Inserted<T>(key: T -> string, x: T, sorted: seq<T>): seq<T> {
    if sorted == [] || AtMost(key(x), key(sorted[0])) then [x] + sorted else [sorted[0]] + Inserted(key, x, sorted[1..])
  }

  function SortedBy<T>(key: T -> string, s: seq<T>): seq<T> {
    if s == [] then [] else Inserted(key, s[0], SortedBy(key, s[1..]))
  }

  ghost predicate InOrder<T>(key: T -> string, s: seq<T>) {
    forall i, j :: 0 <= i < j < |s| ==> AtMost(key(s[i]), key(s[j]))
  }

  ghost predicate DistinctKeys<T>(key: T -> string, s: seq<T>) {
    forall i, j :: 0 <= i < j < |s| ==> key(s[i]) != key(s[j])
  }

  lemma {:induction false} InsertedIs<T(!new)>(key: T -> string, x: T, s: seq<T>)
    requires InOrder(key, s)
    ensures InOrder(key, Inserted(key, x, s))
    ensures forall y :: y in Inserted(key, x, s) <==> y == x || y in s
  {
    if s != [] {
      if AtMost(key(x), key(s[0])) {
        forall j | 0 <= j < |s| ensures AtMost(key(x), key(s[j])) {
          if j > 0 { AtMostTransitive(key(x), key(s[0]), key(s[j])); }
        }
      } else {
        var rest := Inserted(key, x, s[1..]);
        InsertedIs(key, x, s[1..]);
        LessAsymmetric(key(s[0]), key(x));
        forall j | 0 <= j < |rest| ensures AtMost(key(s[0]), key(rest[j])) {
          assert rest[j] in rest;
          if rest[j] != x {
            var k :| 0 <= k < |s| - 1 && s[1..][k] == rest[j];
            assert s[k + 1] == rest[j];
          }
        }
        assert s == [s[0]] + s[1..];
      }
    }
  }

  /** Sorting keeps exactly the items, in order of their keys. */
  lemma {:induction false} SortedIs<T(!new)>(key: T -> string, s: seq<T>)
    ensures InOrder(key, SortedBy(key, s))
    ensures forall x :: x in SortedBy(key, s) <==> x in s
  {
    if s != [] {
      SortedIs(key, s[1..]);
      InsertedIs(key, s[0], SortedBy(key, s[1..]));
      assert s == [s[0]] + s[1..];
    }
  }

  lemma {:induction false} InsertedDistinct<T(!new)>(key: T -> string, x: T, s: seq<T>)
    requires InOrder(key, s) && DistinctKeys(key, s) && forall y :: y in s ==> key(y) != key(x)
    ensures DistinctKeys(key, Inserted(key, x, s))
  {
    if s != [] && !AtMost(key(x), key(s[0])) {
      var rest := Inserted(key, x, s[1..]);
      InsertedDistinct(key, x, s[1..]);
      InsertedIs(key, x, s[1..]);
      forall j | 0 <= j < |rest| ensures key(s[0]) != key(rest[j]) {
        assert rest[j] in rest;
        if rest[j] != x {
          var k :| 0 <= k < |s| - 1 && s[1..][k] == rest[j];
          assert s[k + 1] == rest[j];
        }
      }
    }
  }

  /** And items of different keys are still of different keys. */
  lemma {:induction false} SortedDistinct<T(!new)>(key: T -> string, s: seq<T>)
    requires DistinctKeys(key, s)
    ensures DistinctKeys(key, SortedBy(key, s))
  {
    if s != [] {
      SortedDistinct(key, s[1..]);
      SortedIs(key, s[1..]);
      forall y | y in SortedBy(key, s[1..]) ensures key(y) != key(s[0]) {
        var k :| 0 <= k < |s| - 1 && s[1..][k] == y;
        assert s[k + 1] == y;
      }
      InsertedDistinct(key, s[0], SortedBy(key, s[1..]));
    }
  }
}
