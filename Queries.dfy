/**
 * The two LINQ operators the core relies on, over finite sequences:
 * `Where` (filtering that keeps order) and the key order of `GroupBy`
 * (one group per distinct key, in the order in which each key first occurs).
 */
module Queries {

  /** `s.Where(p)`: the elements that satisfy `p`, in their original order. */
  function Where<T>(s: seq<T>, p: T -> bool): (r: seq<T>)
    ensures |r| <= |s|
    ensures forall x :: x in r ==> x in s && p(x)
    ensures forall i :: 0 <= i < |s| && p(s[i]) ==> s[i] in r
  {
    if s == [] then [] else (if p(s[0]) then [s[0]] else []) + Where(s[1..], p)
  }

  /** Nothing is kept when no element satisfies the predicate. */
  lemma {:induction false} WhereNone<T>(s: seq<T>, p: T -> bool)
    requires forall i :: 0 <= i < |s| ==> !p(s[i])
    ensures Where(s, p) == []
  {
    if s != [] {
      assert !p(s[0]);
      WhereNone(s[1..], p);
    }
  }

  /** `Where` distributes over concatenation, so it never reorders elements. */
  lemma {:induction false} WhereAppend<T>(a: seq<T>, b: seq<T>, p: T -> bool)
    ensures Where(a + b, p) == Where(a, p) + Where(b, p)
  {
    if a == [] {
      assert a + b == b;
    } else {
      assert (a + b)[1..] == a[1..] + b;
      WhereAppend(a[1..], b, p);
    }
  }

  /**
   * Any relation that holds between every earlier and later pair of selected
   * elements of `s` still holds between every earlier and later pair of the
   * result: filtering keeps the relative order of what it keeps.
   */
  lemma {:induction false} WherePreservesOrder<T>(s: seq<T>, p: T -> bool, before: (T, T) -> bool)
    requires forall i, j :: 0 <= i < j < |s| && p(s[i]) && p(s[j]) ==> before(s[i], s[j])
    ensures forall a, b :: 0 <= a < b < |Where(s, p)| ==> before(Where(s, p)[a], Where(s, p)[b])
  {
    if s != [] {
      var tail := s[1..];
      OrderedOnTail(s, p, before);
      WherePreservesOrder(tail, p, before);
      var r := Where(s, p);
      var rt := Where(tail, p);
      if p(s[0]) {
        assert r == [s[0]] + rt;
        forall a, b | 0 <= a < b < |r| ensures before(r[a], r[b]) {
          if a == 0 {
            FirstBeforeKept(s, p, before, rt[b - 1]);
          } else {
            assert r[a] == rt[a - 1] && r[b] == rt[b - 1];
          }
        }
      } else {
        assert r == rt;
      }
    }
  }

  /** The order among kept elements of `s` holds among those of its tail. */
  lemma OrderedOnTail<T>(s: seq<T>, p: T -> bool, before: (T, T) -> bool)
    requires s != []
    requires forall i, j :: 0 <= i < j < |s| && p(s[i]) && p(s[j]) ==> before(s[i], s[j])
    ensures forall i, j :: 0 <= i < j < |s[1..]| && p(s[1..][i]) && p(s[1..][j]) ==> before(s[1..][i], s[1..][j])
  {
    var tail := s[1..];
    forall i, j | 0 <= i < j < |tail| && p(tail[i]) && p(tail[j])
      ensures before(tail[i], tail[j])
    {
      assert tail[i] == s[i + 1] && tail[j] == s[j + 1];
    }
  }

  /** A kept head comes before everything kept from the tail. */
  lemma FirstBeforeKept<T>(s: seq<T>, p: T -> bool, before: (T, T) -> bool, x: T)
    requires s != [] && p(s[0]) && x in Where(s[1..], p)
    requires forall i, j :: 0 <= i < j < |s| && p(s[i]) && p(s[j]) ==> before(s[i], s[j])
    ensures before(s[0], x)
  {
    var tail := s[1..];
    var j :| 0 <= j < |tail| && tail[j] == x;
    assert s[j + 1] == x;
  }

  /**
   * The keys of `s.GroupBy(key)`, in the order in which the groups come out:
   * each distinct key once, in order of its first occurrence in `s`.
   */
  function GroupKeys<T, K(==)>(s: seq<T>, key: T -> K): (r: seq<K>)
    ensures forall i :: 0 <= i < |s| ==> key(s[i]) in r
    ensures forall a, b :: 0 <= a < b < |r| ==> r[a] != r[b]
    ensures |r| <= |s|
  {
    if s == [] then []
    else
      var init := s[..|s| - 1];
      var keys := GroupKeys(init, key);
      assert forall i :: 0 <= i < |init| ==> init[i] == s[i];
      if key(s[|s| - 1]) in keys then keys else keys + [key(s[|s| - 1])]
  }

  /** Every group key is the key of some element. */
  lemma {:induction false} GroupKeysSound<T, K>(s: seq<T>, key: T -> K, k: K)
    requires k in GroupKeys(s, key)
    ensures exists i :: 0 <= i < |s| && key(s[i]) == k
  {
    var init := s[..|s| - 1];
    if k in GroupKeys(init, key) {
      GroupKeysSound(init, key, k);
      var i :| 0 <= i < |init| && key(init[i]) == k;
      assert s[i] == init[i];
    } else {
      assert key(s[|s| - 1]) == k;
    }
  }

  /** The membership test of the group with key `k`. */
  function KeyIs<T, K(==)>(key: T -> K, k: K): T -> bool {
    x => key(x) == k
  }

  /** The elements of the group with key `k`, in their original order. */
  function GroupOf<T, K(==)>(s: seq<T>, key: T -> K, k: K): (r: seq<T>)
    ensures forall x :: x in r ==> x in s && key(x) == k
    ensures forall i :: 0 <= i < |s| && key(s[i]) == k ==> s[i] in r
  {
    Where(s, KeyIs(key, k))
  }

  /** An element whose key no other element shares forms a group of its own. */
  lemma {:induction false} GroupOfSingle<T, K>(s: seq<T>, key: T -> K, i: nat)
    requires i < |s|
    requires forall j :: 0 <= j < |s| && j != i ==> key(s[j]) != key(s[i])
    ensures GroupOf(s, key, key(s[i])) == [s[i]]
  {
    var p := KeyIs(key, key(s[i]));
    if i == 0 {
      assert p(s[0]);
      assert forall j :: 0 <= j < |s[1..]| ==> !p(s[1..][j]) by {
        forall j | 0 <= j < |s[1..]| ensures !p(s[1..][j]) {
          assert s[1..][j] == s[j + 1];
        }
      }
      WhereNone(s[1..], p);
    } else {
      assert !p(s[0]);
      assert s[1..][i - 1] == s[i];
      assert forall j :: 0 <= j < |s[1..]| ==> s[1..][j] == s[j + 1];
      GroupOfSingle(s[1..], key, i - 1);
    }
  }

  /**
   * Groups come out in first-occurrence order: when key `a` is listed before
   * key `b`, some element with key `a` occurs in `s` before every element with key `b`.
   */
  lemma {:induction false} GroupKeysFirstOccurrenceOrder<T, K>(s: seq<T>, key: T -> K, a: nat, b: nat)
    requires a < b < |GroupKeys(s, key)|
    ensures exists i :: 0 <= i < |s| && key(s[i]) == GroupKeys(s, key)[a]
                        && forall j :: 0 <= j <= i ==> key(s[j]) != GroupKeys(s, key)[b]
  {
    var init := s[..|s| - 1];
    var keys := GroupKeys(init, key);
    var r := GroupKeys(s, key);
    assert forall i :: 0 <= i < |init| ==> init[i] == s[i];
    if b < |keys| {
      assert r[a] == keys[a] && r[b] == keys[b];
      GroupKeysFirstOccurrenceOrder(init, key, a, b);
      var i :| 0 <= i < |init| && key(init[i]) == keys[a]
               && forall j :: 0 <= j <= i ==> key(init[j]) != keys[b];
      assert key(s[i]) == r[a];
    } else {
      assert r == keys + [key(s[|s| - 1])] && b == |keys|;
      assert r[a] == keys[a] && keys[a] in keys;
      GroupKeysSound(init, key, keys[a]);
      var i :| 0 <= i < |init| && key(init[i]) == keys[a];
      forall j | 0 <= j <= i ensures key(s[j]) != r[b] {
        assert init[j] == s[j];
      }
    }
  }

  /** A key that no element carries has an empty group. */
  lemma GroupOfAbsentKey<T, K>(s: seq<T>, key: T -> K, k: K)
    requires k !in GroupKeys(s, key)
    ensures GroupOf(s, key, k) == []
  {
    assert forall i :: 0 <= i < |s| ==> key(s[i]) != k;
    WhereNone(s, KeyIs(key, k));
  }

  /** A collection's `Remove(x)`: the first occurrence of `x` is taken out. */
  function RemoveFirst<T(==)>(s: seq<T>, x: T): (r: seq<T>)
    ensures x !in s ==> r == s
    ensures x in s ==> |r| == |s| - 1
  {
    if s == [] then []
    else if s[0] == x then s[1..]
    else [s[0]] + RemoveFirst(s[1..], x)
  }

  /** When `s[i]` is the first occurrence of `x`, that element goes and every other one stays, in order. */
  lemma {:induction false} RemoveFirstTakesFirst<T>(s: seq<T>, x: T, i: nat)
    requires i < |s| && s[i] == x
    requires forall j :: 0 <= j < i ==> s[j] != x
    ensures RemoveFirst(s, x) == s[..i] + s[i + 1..]
  {
    if i > 0 {
      var tail := s[1..];
      assert forall j :: 0 <= j < i - 1 ==> tail[j] == s[j + 1];
      RemoveFirstTakesFirst(tail, x, i - 1);
      assert RemoveFirst(s, x) == [s[0]] + RemoveFirst(tail, x);
      assert s[..i] == [s[0]] + tail[..i - 1];
      assert s[i + 1..] == tail[i..];
      assert [s[0]] + (tail[..i - 1] + tail[i..]) == ([s[0]] + tail[..i - 1]) + tail[i..];
    }
  }
}
