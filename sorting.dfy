/** Python's `list.sort(key=k)`: a stable sort by a real-valued key. The model
    is an insertion sort that places each element after every element whose key
    is not greater, which is stable in the same way. */
module Sorting {
  import opened Common

  ghost predicate SortedBy<T>(s: seq<T>, key: T -> real)
  {
    forall i, j :: 0 <= i < j < |s| ==> key(s[i]) <= key(s[j])
  }

  /** Inserts `x` before the first element whose key is strictly greater. */
  function Insert<T>(x: T, s: seq<T>, key: T -> real): (r: seq<T>)
    ensures multiset(r) == multiset(s) + multiset{x}
    ensures |r| == |s| + 1
  {
    if s == [] then [x]
    else if key(x) < key(s[0]) then [x] + s
    else
      assert s == [s[0]] + s[1..];
      [s[0]] + Insert(x, s[1..], key)
  }

  lemma {:induction false} InsertSorted<T>(x: T, s: seq<T>, key: T -> real)
    requires SortedBy(s, key)
    ensures SortedBy(Insert(x, s, key), key)
  {
    if s != [] && key(x) >= key(s[0]) {
      var rest := Insert(x, s[1..], key);
      InsertSorted(x, s[1..], key);
      assert forall k :: 0 <= k < |s[1..]| ==> key(s[1..][k]) >= key(s[0]) by {
        forall k | 0 <= k < |s[1..]| ensures key(s[1..][k]) >= key(s[0]) {
          assert s[1..][k] == s[k + 1];
        }
      }
      InsertAbove(x, s[1..], key, key(s[0]));
      var r := [s[0]] + rest;
      forall i, j | 0 <= i < j < |r| ensures key(r[i]) <= key(r[j]) {
        assert r[j] == rest[j - 1];
        if i > 0 {
          assert r[i] == rest[i - 1];
        }
      }
    }
  }

  /** Inserting an element whose key is at least `lo` into a sequence whose
      keys are all at least `lo` keeps every key at least `lo`. */
  lemma InsertAbove<T>(x: T, s: seq<T>, key: T -> real, lo: real)
    requires key(x) >= lo && forall k :: 0 <= k < |s| ==> key(s[k]) >= lo
    ensures forall k :: 0 <= k < |Insert(x, s, key)| ==> key(Insert(x, s, key)[k]) >= lo
  {
    var r := Insert(x, s, key);
    forall k | 0 <= k < |r| ensures key(r[k]) >= lo {
      assert r[k] in multiset(r);
      if r[k] != x {
        assert r[k] in multiset(s);
        var j :| 0 <= j < |s| && s[j] == r[k];
      }
    }
  }

  /** The stably sorted copy of `s`. */
  function SortBy<T>(s: seq<T>, key: T -> real): (r: seq<T>)
    ensures SortedBy(r, key)
    ensures multiset(r) == multiset(s)
    ensures |r| == |s|
  {
    if s == [] then []
    else
      assert s == s[..|s| - 1] + [s[|s| - 1]];
      InsertSorted(s[|s| - 1], SortBy(s[..|s| - 1], key), key);
      Insert(s[|s| - 1], SortBy(s[..|s| - 1], key), key)
  }

  /** `[x]` when `x` has key `v`, else nothing. */
  function OfKey<T>(x: T, key: T -> real, v: real): seq<T>
  {
    if key(x) == v then [x] else []
  }

  /** The elements of `s` whose key is `v`, in their order in `s`. */
  function WithKey<T>(s: seq<T>, key: T -> real, v: real): seq<T>
  {
    if s == [] then [] else OfKey(s[0], key, v) + WithKey(s[1..], key, v)
  }

  lemma {:induction false} WithKeyConcat<T>(a: seq<T>, b: seq<T>, key: T -> real, v: real)
    ensures WithKey(a + b, key, v) == WithKey(a, key, v) + WithKey(b, key, v)
  {
    if a == [] {
      assert a + b == b;
    } else {
      assert (a + b)[0] == a[0] && (a + b)[1..] == a[1..] + b;
      WithKeyConcat(a[1..], b, key, v);
    }
  }

  /** No element has key `v` when every key of a sorted sequence exceeds it. */
  lemma {:induction false} WithKeyAbove<T>(s: seq<T>, key: T -> real, v: real)
    requires SortedBy(s, key) && (s != [] ==> key(s[0]) > v)
    ensures WithKey(s, key, v) == []
  {
    if s != [] {
      SortedTail(s, key);
      if |s| > 1 {
        assert s[1..][0] == s[1];
      }
      WithKeyAbove(s[1..], key, v);
    }
  }

  lemma SortedTail<T>(s: seq<T>, key: T -> real)
    requires SortedBy(s, key) && s != []
    ensures SortedBy(s[1..], key)
  {
    forall i, j | 0 <= i < j < |s[1..]| ensures key(s[1..][i]) <= key(s[1..][j]) {
      assert s[1..][i] == s[i + 1] && s[1..][j] == s[j + 1];
    }
  }

  /** Inserting `x` into a sorted sequence puts it after every element of
      equal key. */
  lemma {:induction false} InsertWithKey<T>(x: T, s: seq<T>, key: T -> real, v: real)
    requires SortedBy(s, key)
    ensures WithKey(Insert(x, s, key), key, v) == WithKey(s, key, v) + OfKey(x, key, v)
  {
    var r := Insert(x, s, key);
    if s == [] {
      assert r == [x] && r[1..] == [];
    } else if key(x) < key(s[0]) {
      assert r == [x] + s && r[1..] == s;
      if key(x) == v {
        WithKeyAbove(s, key, v);
      }
    } else {
      var rest := Insert(x, s[1..], key);
      assert r == [s[0]] + rest && r[1..] == rest;
      SortedTail(s, key);
      InsertWithKey(x, s[1..], key, v);
    }
  }

  /** The sort is stable: the elements of any one key keep their order. */
  lemma {:induction false} SortByStable<T>(s: seq<T>, key: T -> real, v: real)
    ensures WithKey(SortBy(s, key), key, v) == WithKey(s, key, v)
  {
    if s != [] {
      var init, x := s[..|s| - 1], s[|s| - 1];
      assert s == init + [x];
      assert SortBy(s, key) == Insert(x, SortBy(init, key), key);
      SortByStable(init, key, v);
      InsertWithKey(x, SortBy(init, key), key, v);
      WithKeyConcat(init, [x], key, v);
      assert WithKey([x], key, v) == OfKey(x, key, v) by {
        assert [x][1..] == [];
      }
    }
  }

  /** A prefix keeps a prefix of the elements of each key. */
  lemma WithKeyPrefix<T>(s: seq<T>, k: nat, key: T -> real, v: real)
    requires k <= |s|
    ensures WithKey(s[..k], key, v) <= WithKey(s, key, v)
  {
    assert s == s[..k] + s[k..];
    WithKeyConcat(s[..k], s[k..], key, v);
  }

  /** Mapping with a function that carries the key over commutes with taking
      the elements of one key. */
  lemma {:induction false} WithKeyMap<A, B>(s: seq<A>, f: A -> B, keyA: A -> real, keyB: B -> real, v: real)
    requires forall k :: 0 <= k < |s| ==> keyB(f(s[k])) == keyA(s[k])
    ensures WithKey(Map(s, f), keyB, v) == Map(WithKey(s, keyA, v), f)
  {
    if s != [] {
      assert Map(s, f)[1..] == Map(s[1..], f);
      assert forall k :: 0 <= k < |s[1..]| ==> s[1..][k] == s[k + 1];
      WithKeyMap(s[1..], f, keyA, keyB, v);
      MapConcat(OfKey(s[0], keyA, v), WithKey(s[1..], keyA, v), f);
    }
  }

  /** Every element of a sorted sequence that lies after position `k` has a key
      at least as large as every element before `k`. */
  lemma {:induction false} SortedSplit<T>(s: seq<T>, key: T -> real, k: nat)
    requires SortedBy(s, key) && k <= |s|
    ensures forall a, b :: a in s[..k] && b in multiset(s[k..]) ==> key(a) <= key(b)
  {
    forall a, b | a in s[..k] && b in multiset(s[k..]) ensures key(a) <= key(b) {
      var i :| 0 <= i < k && s[..k][i] == a;
      var j :| 0 <= j < |s| - k && s[k..][j] == b;
      assert s[i] == a && s[k + j] == b;
    }
  }
}
