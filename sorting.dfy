/** `ORDER BY k1 DESC, k2 DESC, ...` over text columns under SQLite's
    BINARY collation: the rows come out in descending lexicographic order of
    their list of sort keys. Rows whose keys all tie come out in an order
    SQLite does not promise; the model fixes one. */
module Sorting {
  import Text

  /** Strictly before, in BINARY collation. */
  predicate Lt(a: string, b: string) {
    Text.LexLe(a, b) && a != b
  }

  /** Lexicographic order on lists of sort keys. */
  predicate KeyLe(a: seq<string>, b: seq<string>) {
    a == [] || (b != [] && (Lt(a[0], b[0]) || (a[0] == b[0] && KeyLe(a[1..], b[1..]))))
  }

  lemma {:induction false} KeyLeTotal(a: seq<string>, b: seq<string>)
    ensures KeyLe(a, b) || KeyLe(b, a)
  {
    if a != [] && b != [] {
      if a[0] == b[0] {
        KeyLeTotal(a[1..], b[1..]);
      } else {
        Text.LexLeTotal(a[0], b[0]);
      }
    }
  }

  lemma {:induction false} KeyLeTrans(a: seq<string>, b: seq<string>, c: seq<string>)
    requires KeyLe(a, b) && KeyLe(b, c)
    ensures KeyLe(a, c)
  {
    if a != [] {
      assert b != [] && c != [];
      if a[0] == b[0] && b[0] == c[0] {
        KeyLeTrans(a[1..], b[1..], c[1..]);
      } else if Lt(a[0], b[0]) && Lt(b[0], c[0]) {
        Text.LexLeTrans(a[0], b[0], c[0]);
        if a[0] == c[0] {
          Text.LexLeAntisymmetric(a[0], b[0]);
        }
      }
    }
  }

  /** Every row is at or above every row after it. */
  predicate SortedDesc<T>(s: seq<T>, key: T -> seq<string>) {
    forall i, j | 0 <= i < j < |s| :: KeyLe(key(s[j]), key(s[i]))
  }

  /** Puts `x` in front of the first row whose key is not above its own. */
  function InsertDesc<T(!new)>(x: T, s: seq<T>, key: T -> seq<string>): (r: seq<T>)
    ensures multiset(r) == multiset(s) + multiset{x}
    ensures forall y :: y in r <==> y == x || y in s
  {
    if s == [] || KeyLe(key(s[0]), key(x)) then [x] + s
    else
      assert s == [s[0]] + s[1..];
      [s[0]] + InsertDesc(x, s[1..], key)
  }

  lemma {:induction false} InsertDescSorted<T(!new)>(x: T, s: seq<T>, key: T -> seq<string>)
    requires SortedDesc(s, key)
    ensures SortedDesc(InsertDesc(x, s, key), key)
  {
    if s == [] {
    } else if KeyLe(key(s[0]), key(x)) {
      var r := [x] + s;
      forall i, j | 0 <= i < j < |r| ensures KeyLe(key(r[j]), key(r[i])) {
        if i == 0 {
          if j > 1 {
            KeyLeTrans(key(s[j - 1]), key(s[0]), key(x));
          }
        } else {
          assert r[i] == s[i - 1] && r[j] == s[j - 1];
        }
      }
    } else {
      KeyLeTotal(key(s[0]), key(x));
      var tail := s[1..];
      assert SortedDesc(tail, key) by {
        forall i, j | 0 <= i < j < |tail| ensures KeyLe(key(tail[j]), key(tail[i])) {
          assert tail[i] == s[i + 1] && tail[j] == s[j + 1];
        }
      }
      InsertDescSorted(x, tail, key);
      var rest := InsertDesc(x, tail, key);
      var r := [s[0]] + rest;
      forall i, j | 0 <= i < j < |r| ensures KeyLe(key(r[j]), key(r[i])) {
        if i == 0 {
          var y := r[j];
          assert y == rest[j - 1];
          assert y in rest;
          if y != x {
            assert y in tail;
            var m :| 0 <= m < |tail| && tail[m] == y;
            assert s[m + 1] == y;
          }
        } else {
          assert r[i] == rest[i - 1] && r[j] == rest[j - 1];
        }
      }
    }
  }

  /** Insertion sort into descending key order. */
  function SortDesc<T(!new)>(s: seq<T>, key: T -> seq<string>): (r: seq<T>)
    ensures multiset(r) == multiset(s)
    ensures forall y :: y in r <==> y in s
    ensures SortedDesc(r, key)
  {
    if s == [] then []
    else
      var rest := SortDesc(s[1..], key);
      InsertDescSorted(s[0], rest, key);
      assert s == [s[0]] + s[1..];
      InsertDesc(s[0], rest, key)
  }
}
