/** The two orders the list routes ask of the store: `ORDER BY created_at DESC`
    (newest first) and `ORDER BY name` (ascending, code-point lexicographic). */
module Ordering {

  /** Rows are non-increasing in `key`: what `ORDER BY <key> DESC` promises. */
  predicate SortedDesc<T>(s: seq<T>, key: T -> int) {
    forall i, j :: 0 <= i < j < |s| ==> key(s[j]) <= key(s[i])
  }

  /** Code-point lexicographic order on strings; a proper prefix comes first. */
  predicate NameLe(a: string, b: string) {
    a == [] || (b != [] && (a[0] < b[0] || (a[0] == b[0] && NameLe(a[1..], b[1..]))))
  }

  /** Rows are non-decreasing in `key` under NameLe: what `ORDER BY <key>` promises. */
  predicate SortedAsc<T>(s: seq<T>, key: T -> string) {
    forall i, j :: 0 <= i < j < |s| ==> NameLe(key(s[i]), key(s[j]))
  }

  lemma {:induction false} NameLeTotal(a: string, b: string)
    ensures NameLe(a, b) || NameLe(b, a)
  {
    if a != [] && b != [] && a[0] == b[0] {
      NameLeTotal(a[1..], b[1..]);
    }
  }

  lemma {:induction false} NameLeAntisymmetric(a: string, b: string)
    requires NameLe(a, b) && NameLe(b, a)
    ensures a == b
  {
    if a != [] && b != [] {
      NameLeAntisymmetric(a[1..], b[1..]);
      assert a == [a[0]] + a[1..] && b == [b[0]] + b[1..];
    }
  }

  /** Every element of `s` is bounded above by `b`. */
  lemma AllBelow<T>(s: seq<T>, key: T -> int, b: int, y: T)
    requires forall k :: 0 <= k < |s| ==> key(s[k]) <= b
    requires y in multiset(s)
    ensures key(y) <= b
  {
    var k :| 0 <= k < |s| && s[k] == y;
  }

  lemma AllAbove<T>(s: seq<T>, key: T -> string, b: string, y: T)
    requires forall k :: 0 <= k < |s| ==> NameLe(b, key(s[k]))
    requires y in multiset(s)
    ensures NameLe(b, key(y))
  {
    var k :| 0 <= k < |s| && s[k] == y;
  }

  /** Places `x` in front of the first row that is not newer than it. */
  function InsertDesc<T>(x: T, s: seq<T>, key: T -> int): (r: seq<T>)
    requires SortedDesc(s, key)
    ensures multiset(r) == multiset(s) + multiset{x}
    ensures SortedDesc(r, key)
  {
    if s == [] then [x]
    else if key(s[0]) <= key(x) then [x] + s
    else
      var rest := InsertDesc(x, s[1..], key);
      assert s == [s[0]] + s[1..];
      forall j | 0 <= j < |rest| ensures key(rest[j]) <= key(s[0]) {
        assert rest[j] in multiset(rest);
        if rest[j] != x {
          AllBelow(s[1..], key, key(s[0]), rest[j]);
        }
      }
      PrependDesc(s[0], rest, key);
      [s[0]] + rest
  }

  /** A head at least as new as every row keeps the list sorted newest first. */
  lemma PrependDesc<T>(h: T, s: seq<T>, key: T -> int)
    requires SortedDesc(s, key)
    requires forall j :: 0 <= j < |s| ==> key(s[j]) <= key(h)
    ensures SortedDesc([h] + s, key)
  {
    var r := [h] + s;
    forall i, j | 0 <= i < j < |r| ensures key(r[j]) <= key(r[i]) {
      assert r[j] == s[j - 1];
      if i > 0 {
        assert r[i] == s[i - 1];
      }
    }
  }

  /** `ORDER BY key DESC` as a function: a newest-first permutation of `s`. */
  function SortDesc<T>(s: seq<T>, key: T -> int): (r: seq<T>)
    ensures multiset(r) == multiset(s)
    ensures SortedDesc(r, key)
  {
    if s == [] then []
    else
      assert s == [s[0]] + s[1..];
      InsertDesc(s[0], SortDesc(s[1..], key), key)
  }

  function InsertAsc<T>(x: T, s: seq<T>, key: T -> string): (r: seq<T>)
    requires SortedAsc(s, key)
    ensures multiset(r) == multiset(s) + multiset{x}
    ensures SortedAsc(r, key)
  {
    if s == [] then [x]
    else if NameLe(key(x), key(s[0])) then
      forall j | 0 <= j < |s| ensures NameLe(key(x), key(s[j])) {
        if j > 0 { NameLeTransitive(key(x), key(s[0]), key(s[j])); }
      }
      PrependAsc(x, s, key);
      [x] + s
    else
      NameLeTotal(key(x), key(s[0]));
      var rest := InsertAsc(x, s[1..], key);
      assert s == [s[0]] + s[1..];
      forall j | 0 <= j < |rest| ensures NameLe(key(s[0]), key(rest[j])) {
        assert rest[j] in multiset(rest);
        if rest[j] != x {
          AllAbove(s[1..], key, key(s[0]), rest[j]);
        }
      }
      PrependAsc(s[0], rest, key);
      [s[0]] + rest
  }

  /** A head that sorts before every row keeps the list in name order. */
  lemma PrependAsc<T>(h: T, s: seq<T>, key: T -> string)
    requires SortedAsc(s, key)
    requires forall j :: 0 <= j < |s| ==> NameLe(key(h), key(s[j]))
    ensures SortedAsc([h] + s, key)
  {
    var r := [h] + s;
    forall i, j | 0 <= i < j < |r| ensures NameLe(key(r[i]), key(r[j])) {
      assert r[j] == s[j - 1];
      if i > 0 {
        assert r[i] == s[i - 1];
      }
    }
  }

  lemma {:induction false} NameLeTransitive(a: string, b: string, c: string)
    requires NameLe(a, b) && NameLe(b, c)
    ensures NameLe(a, c)
  {
    if a != [] && b != [] && c != [] && a[0] == b[0] && b[0] == c[0] {
      NameLeTransitive(a[1..], b[1..], c[1..]);
    }
  }

  /** `ORDER BY key` as a function: an ascending permutation of `s`. */
  function SortAsc<T>(s: seq<T>, key: T -> string): (r: seq<T>)
    ensures multiset(r) == multiset(s)
    ensures SortedAsc(r, key)
  {
    if s == [] then []
    else
      assert s == [s[0]] + s[1..];
      InsertAsc(s[0], SortAsc(s[1..], key), key)
  }

  /** Two sorted permutations with distinct keys start with the same row. */
  lemma SortedAscSameHead<T>(a: seq<T>, b: seq<T>, key: T -> string)
    requires a != [] && multiset(a) == multiset(b)
    requires SortedAsc(a, key) && SortedAsc(b, key)
    requires forall i, j :: 0 <= i < j < |a| ==> key(a[i]) != key(a[j])
    ensures b != [] && a[0] == b[0]
  {
    assert a[0] in multiset(b);
    var k :| 0 <= k < |b| && b[k] == a[0];
    assert b[0] in multiset(a);
    var m :| 0 <= m < |a| && a[m] == b[0];
    if k != 0 && m != 0 {
      assert NameLe(key(b[0]), key(b[k]));
      assert NameLe(key(a[0]), key(a[m]));
      NameLeAntisymmetric(key(a[0]), key(b[0]));
      assert false;
    }
  }

  /** Two orderings of the same rows have the same members and length. */
  lemma SameMultisetSameMembers<T>(a: seq<T>, b: seq<T>)
    requires multiset(a) == multiset(b)
    ensures |a| == |b|
    ensures forall x :: x in a <==> x in b
  {
    assert |a| == |multiset(a)| == |multiset(b)| == |b|;
    forall x ensures x in a <==> x in b {
      assert x in a <==> x in multiset(a);
      assert x in b <==> x in multiset(b);
    }
  }

  lemma TailMultiset<T>(a: seq<T>, b: seq<T>)
    requires a != [] && b != [] && a[0] == b[0] && multiset(a) == multiset(b)
    ensures multiset(a[1..]) == multiset(b[1..])
  {
    assert a == [a[0]] + a[1..] && b == [b[0]] + b[1..];
    calc {
      multiset(a[1..]);
      multiset(a) - multiset{a[0]};
      multiset(b) - multiset{b[0]};
      multiset(b[1..]);
    }
  }

  /** When the keys are pairwise distinct, the ascending order is unique:
      any two sorted permutations of the same rows are equal. */
  lemma {:induction false} SortedAscUnique<T>(a: seq<T>, b: seq<T>, key: T -> string)
    requires multiset(a) == multiset(b)
    requires SortedAsc(a, key) && SortedAsc(b, key)
    requires forall i, j :: 0 <= i < j < |a| ==> key(a[i]) != key(a[j])
    ensures a == b
  {
    if a == [] {
      assert |b| == |multiset(b)| == 0;
    } else {
      SortedAscSameHead(a, b, key);
      TailMultiset(a, b);
      var a', b' := a[1..], b[1..];
      assert forall i, j :: 0 <= i < j < |a'| ==> key(a'[i]) != key(a'[j]) by {
        forall i, j | 0 <= i < j < |a'| ensures key(a'[i]) != key(a'[j]) {
          assert a'[i] == a[i + 1] && a'[j] == a[j + 1];
        }
      }
      assert SortedAsc(a', key) by {
        forall i, j | 0 <= i < j < |a'| ensures NameLe(key(a'[i]), key(a'[j])) {
          assert a'[i] == a[i + 1] && a'[j] == a[j + 1];
        }
      }
      assert SortedAsc(b', key) by {
        forall i, j | 0 <= i < j < |b'| ensures NameLe(key(b'[i]), key(b'[j])) {
          assert b'[i] == b[i + 1] && b'[j] == b[j + 1];
        }
      }
      SortedAscUnique(a', b', key);
      assert a == [a[0]] + a' && b == [b[0]] + b';
    }
  }
}
