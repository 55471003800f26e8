/** Sequence helpers shared by the table model: lookup by a row predicate
    and uniqueness of a key over the rows of a table. */
module Seqs {

  datatype Option<T> = None | Some(value: T)

  /** The position of the first element satisfying `p`, as a `SELECT ...
      WHERE` on one table does; `None` when no element does. */
  function Find<T>(s: seq<T>, p: T -> bool): (r: Option<nat>)
    ensures r.Some? ==> r.value < |s| && p(s[r.value])
    ensures r.None? <==> forall i | 0 <= i < |s| :: !p(s[i])
  {
    if |s| == 0 then None
    else if p(s[0]) then Some(0)
    else match Find(s[1..], p)
      case None => None
      case Some(k) => Some(k + 1)
  }

  /** No two rows of `s` share a value of `key`: the meaning of a `UNIQUE`
      or `PRIMARY KEY` constraint. */
  predicate KeysDistinct<T, K(==)>(s: seq<T>, key: T -> K) {
    forall i, j | 0 <= i < j < |s| :: key(s[i]) != key(s[j])
  }

  /** In a table with a unique key, the row holding a given key value is
      determined by it. */
  lemma KeyDetermines<T, K>(s: seq<T>, key: T -> K, i: nat, j: nat)
    requires KeysDistinct(s, key) && i < |s| && j < |s| && key(s[i]) == key(s[j])
    ensures i == j
  {
    if i < j {
    } else if j < i {
    }
  }

  lemma DistinctAppend<T, K>(s: seq<T>, key: T -> K, x: T)
    requires KeysDistinct(s, key)
    requires forall i | 0 <= i < |s| :: key(s[i]) != key(x)
    ensures KeysDistinct(s + [x], key)
  {
    var t := s + [x];
    forall i, j | 0 <= i < j < |t| ensures key(t[i]) != key(t[j]) {
      assert t[i] == s[i];
      if j < |s| { assert t[j] == s[j]; } else { assert t[j] == x; }
    }
  }

  lemma DistinctRemoveAt<T, K>(s: seq<T>, key: T -> K, k: nat)
    requires KeysDistinct(s, key) && k < |s|
    ensures KeysDistinct(s[..k] + s[k + 1..], key)
  {
    var t := s[..k] + s[k + 1..];
    forall i, j | 0 <= i < j < |t| ensures key(t[i]) != key(t[j]) {
      var i' := if i < k then i else i + 1;
      var j' := if j < k then j else j + 1;
      assert t[i] == s[i'] && t[j] == s[j'];
    }
  }

  lemma DistinctUpdate<T, K>(s: seq<T>, key: T -> K, k: nat, x: T)
    requires KeysDistinct(s, key) && k < |s| && key(x) == key(s[k])
    ensures KeysDistinct(s[k := x], key)
  {
    var t := s[k := x];
    forall i, j | 0 <= i < j < |t| ensures key(t[i]) != key(t[j]) {
      assert key(t[i]) == key(s[i]) && key(t[j]) == key(s[j]);
    }
  }

  /** In a table with a unique key no row occurs twice. */
  lemma {:induction false} KeysDistinctOnce<T, K>(s: seq<T>, key: T -> K, x: T)
    requires KeysDistinct(s, key)
    ensures multiset(s)[x] <= 1
  {
    if s != [] {
      var init := s[..|s| - 1];
      assert s == init + [s[|s| - 1]];
      assert KeysDistinct(init, key) by {
        forall i, j | 0 <= i < j < |init| ensures key(init[i]) != key(init[j]) {
          assert init[i] == s[i] && init[j] == s[j];
        }
      }
      KeysDistinctOnce(init, key, x);
    }
  }

  /** Removing the element at `k` keeps every other element, in order. */
  lemma RemoveAtElements<T>(s: seq<T>, k: nat)
    requires k < |s|
    ensures forall x :: x in s[..k] + s[k + 1..] ==> x in s
    ensures forall i | 0 <= i < |s| && i != k :: s[i] in s[..k] + s[k + 1..]
  {
    var t := s[..k] + s[k + 1..];
    forall i | 0 <= i < |s| && i != k ensures s[i] in t {
      if i < k { assert t[i] == s[i]; } else { assert t[i - 1] == s[i]; }
    }
  }
}
