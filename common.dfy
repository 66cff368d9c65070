/** Values shared by the backend and frontend models: an optional value, a
    geographic point, and sums over sequences. */
module Common {

  datatype Option<T> = None | Some(value: T)

  /** A (latitude, longitude) pair. Coordinates are only ever handed to an
      abstract distance function, so they are plain reals. */
  datatype Point = Point(lat: real, lng: real)

  /** Sum of `f` over `s`, accumulated left to right as Python's `sum` and
      JavaScript's `reduce` do. */
  function Sum<T>(s: seq<T>, f: T -> real): real
  {
    if s == [] then 0.0 else Sum(s[..|s| - 1], f) + f(s[|s| - 1])
  }

  lemma {:induction false} SumConcat<T>(a: seq<T>, b: seq<T>, f: T -> real)
    ensures Sum(a + b, f) == Sum(a, f) + Sum(b, f)
    decreases |b|
  {
    if b == [] {
      assert a + b == a;
    } else {
      var b' := b[..|b| - 1];
      assert (a + b)[..|a + b| - 1] == a + b';
      SumConcat(a, b', f);
    }
  }

  lemma {:induction false} SumNonNegative<T>(s: seq<T>, f: T -> real)
    requires forall k :: 0 <= k < |s| ==> f(s[k]) >= 0.0
    ensures Sum(s, f) >= 0.0
  {
    if s != [] {
      SumNonNegative(s[..|s| - 1], f);
    }
  }

  /** Replacing one element changes the sum by the difference of the two values. */
  lemma {:induction false} SumUpdate<T>(s: seq<T>, i: nat, x: T, f: T -> real)
    requires i < |s|
    ensures Sum(s[i := x], f) == Sum(s, f) - f(s[i]) + f(x)
  {
    assert s == s[..i] + [s[i]] + s[i + 1..];
    assert s[i := x] == s[..i] + [x] + s[i + 1..];
    SumConcat(s[..i] + [s[i]], s[i + 1..], f);
    SumConcat(s[..i] + [x], s[i + 1..], f);
    SumConcat(s[..i], [s[i]], f);
    SumConcat(s[..i], [x], f);
  }

  ghost predicate Distinct<T>(s: seq<T>)
  {
    forall a, b :: 0 <= a < b < |s| ==> s[a] != s[b]
  }

  /** `mask` picks the elements of `xs` kept in a 0/1 selection, in their order. */
  function Select<T>(xs: seq<T>, mask: seq<bool>): (r: seq<T>)
    requires |mask| == |xs|
    ensures |r| <= |xs|
  {
    if xs == [] then []
    else Select(xs[..|xs| - 1], mask[..|mask| - 1]) + (if mask[|mask| - 1] then [xs[|xs| - 1]] else [])
  }

  /** A mask that keeps everything keeps the sequence. */
  lemma {:induction false} SelectAll<T>(xs: seq<T>, mask: seq<bool>)
    requires |mask| == |xs| && forall k :: 0 <= k < |mask| ==> mask[k]
    ensures Select(xs, mask) == xs
  {
    if xs != [] {
      var n := |xs| - 1;
      SelectAll(xs[..n], mask[..n]);
      assert xs == xs[..n] + [xs[n]];
    }
  }

  /** The indices `0 .. n-1`, ascending (Python's `list(range(n))`). */
  function Range(n: nat): (r: seq<nat>)
    ensures |r| == n && forall k :: 0 <= k < n ==> r[k] == k
  {
    seq(n, k => k)
  }

  /** `route` visits every index below `n` exactly once. */
  ghost predicate IsPermutationOf(route: seq<nat>, n: nat)
  {
    && |route| == n
    && Distinct(route)
    && (forall k :: 0 <= k < |route| ==> route[k] < n)
  }

  /** A sequence of distinct indices below `n` that has `n` elements covers every index. */
  lemma {:induction false} PermutationCovers(route: seq<nat>, n: nat)
    requires IsPermutationOf(route, n)
    ensures forall j :: 0 <= j < n ==> j in route
  {
    var s := Elems(route);
    var full := Elems(Range(n));
    RangeElems(n);
    forall x | x in s ensures x in full {
      var k :| 0 <= k < |route| && route[k] == x;
    }
    DistinctCard(route);
    assert Distinct(Range(n));
    DistinctCard(Range(n));
    SubsetSameSize(s, full);
    forall j | 0 <= j < n ensures j in route {
      assert j in full;
    }
  }

  /** The elements of `Range(n)` are the indices below `n`. */
  lemma RangeElems(n: nat)
    ensures forall x: nat :: x in Elems(Range(n)) <==> x < n
  {
    forall x: nat ensures x in Elems(Range(n)) <==> x < n {
      if x < n {
        assert Range(n)[x] == x;
      }
      if x in Range(n) {
        var k :| 0 <= k < n && Range(n)[k] == x;
      }
    }
  }

  /** A subset as large as its superset is the whole superset. */
  lemma SubsetSameSize<T>(a: set<T>, b: set<T>)
    requires a <= b && |a| == |b|
    ensures a == b
  {
    assert b == a + (b - a);
    assert |b - a| == 0;
  }

  /** The set of elements of a sequence. */
  function Elems<T>(s: seq<T>): set<T>
  {
    set x | x in s
  }

  lemma {:induction false} DistinctCard(s: seq<nat>)
    requires Distinct(s)
    ensures |Elems(s)| == |s|
  {
    if s != [] {
      var s' := s[..|s| - 1];
      assert Distinct(s');
      DistinctCard(s');
      var a := Elems(s');
      var b := Elems(s);
      assert s == s' + [s[|s| - 1]];
      forall x ensures x in b <==> x in a || x == s[|s| - 1] {
        assert x in s <==> x in s' || x == s[|s| - 1];
      }
      assert b == a + {s[|s| - 1]};
      forall k | 0 <= k < |s'| ensures s'[k] != s[|s| - 1] {
        assert s'[k] == s[k];
      }
      assert s[|s| - 1] !in a;
      assert |b| == |a| + 1;
      assert |a| == |s'|;
      assert |b| == |s|;
    }
  }

  /** A sequence without repetitions holds each of its elements once. */
  lemma {:induction false} DistinctMultiset<T>(s: seq<T>)
    requires Distinct(s)
    ensures multiset(Elems(s)) == multiset(s)
  {
    if s != [] {
      var s', x := s[..|s| - 1], s[|s| - 1];
      LastIsNew(s);
      DistinctMultiset(s');
      ElemsSnoc(s', x);
      assert s == s' + [x];
      assert multiset(Elems(s)) == multiset(Elems(s')) + multiset{x};
    }
  }

  /** The last element of a sequence without repetitions is not among the others. */
  lemma LastIsNew<T>(s: seq<T>)
    requires Distinct(s) && s != []
    ensures Distinct(s[..|s| - 1]) && s[|s| - 1] !in Elems(s[..|s| - 1])
  {
    var s' := s[..|s| - 1];
    forall k | 0 <= k < |s'| ensures s'[k] != s[|s| - 1] {
      assert s'[k] == s[k];
    }
  }

  lemma ElemsSnoc<T>(s: seq<T>, x: T)
    ensures Elems(s + [x]) == Elems(s) + {x}
  {
    forall y ensures y in Elems(s + [x]) <==> y in Elems(s) || y == x {
      assert y in s + [x] <==> y in s || y == x;
    }
  }

  /** A permutation of `0 .. n-1` holds each index once. */
  lemma PermutationMultiset(route: seq<nat>, n: nat)
    requires IsPermutationOf(route, n)
    ensures multiset(route) == multiset(Range(n))
  {
    PermutationCovers(route, n);
    assert Elems(route) == Elems(Range(n)) by {
      forall x ensures x in Elems(route) <==> x in Elems(Range(n)) {
        if x in route {
          var k :| 0 <= k < |route| && route[k] == x;
          assert Range(n)[x] == x;
        }
        if x in Range(n) {
          var k :| 0 <= k < n && Range(n)[k] == x;
          assert x == k;
        }
      }
    }
    DistinctMultiset(route);
    DistinctMultiset(Range(n));
  }

  /** `[f(x) for x in s]`. */
  function Map<A, B>(s: seq<A>, f: A -> B): (r: seq<B>)
    ensures |r| == |s| && forall k :: 0 <= k < |s| ==> r[k] == f(s[k])
  {
    seq(|s|, k requires 0 <= k < |s| => f(s[k]))
  }

  lemma MapConcat<A, B>(a: seq<A>, b: seq<A>, f: A -> B)
    ensures Map(a + b, f) == Map(a, f) + Map(b, f)
  {
  }

  /** Mapping a prefix gives a prefix. */
  lemma MapPrefix<A, B>(a: seq<A>, b: seq<A>, f: A -> B)
    requires a <= b
    ensures Map(a, f) <= Map(b, f)
  {
    assert b == a + b[|a|..];
    MapConcat(a, b[|a|..], f);
  }

  /** Removing the element at `i` from a sequence removes one copy from its multiset. */
  lemma RemoveAt<T>(t: seq<T>, i: nat)
    requires i < |t|
    ensures t == t[..i] + [t[i]] + t[i + 1..]
    ensures multiset(t[..i] + t[i + 1..]) == multiset(t) - multiset{t[i]}
  {
    assert t == t[..i] + [t[i]] + t[i + 1..];
  }

  /** Mapping a list with one element taken out. */
  lemma MapRemoveAt<A, B>(t: seq<A>, i: nat, f: A -> B)
    requires i < |t|
    ensures multiset(Map(t, f)) == multiset(Map(t[..i] + t[i + 1..], f)) + multiset{f(t[i])}
  {
    var a, b := Map(t[..i], f), Map(t[i + 1..], f);
    assert Map(t, f) == a + [f(t[i])] + b;
    assert Map(t[..i] + t[i + 1..], f) == a + b;
  }

  /** Mapping a list with one element added at the end. */
  lemma MapSnoc<A, B>(s: seq<A>, x: A, f: A -> B)
    ensures multiset(Map(s + [x], f)) == multiset(Map(s, f)) + multiset{f(x)}
  {
    assert Map(s + [x], f) == Map(s, f) + [f(x)];
  }

  /** Where the last element of `s` sits in a permutation `t` of it. */
  lemma LastIn<A>(s: seq<A>, t: seq<A>) returns (i: nat)
    requires s != [] && multiset(s) == multiset(t)
    ensures i < |t| && t[i] == s[|s| - 1]
    ensures multiset(s[..|s| - 1]) == multiset(t[..i] + t[i + 1..])
  {
    var x := s[|s| - 1];
    assert s == s[..|s| - 1] + [x];
    assert x in multiset(t);
    i :| 0 <= i < |t| && t[i] == x;
    RemoveAt(t, i);
  }

  /** Mapping two permutations of each other gives two permutations of each other. */
  lemma {:induction false} MapMultiset<A, B>(s: seq<A>, t: seq<A>, f: A -> B)
    requires multiset(s) == multiset(t)
    ensures multiset(Map(s, f)) == multiset(Map(t, f))
    decreases |s|
  {
    if s == [] {
      assert |t| == |multiset(t)| == 0;
    } else {
      var i := LastIn(s, t);
      var s' := s[..|s| - 1];
      MapMultiset(s', t[..i] + t[i + 1..], f);
      MapRemoveAt(t, i, f);
      MapSnoc(s', s[|s| - 1], f);
      assert s == s' + [s[|s| - 1]];
    }
  }

  /** The sum of a list with one element taken out. */
  lemma SumRemoveAt<T>(t: seq<T>, i: nat, f: T -> real)
    requires i < |t|
    ensures Sum(t, f) == Sum(t[..i] + t[i + 1..], f) + f(t[i])
  {
    RemoveAt(t, i);
    SumConcat(t[..i] + [t[i]], t[i + 1..], f);
    SumConcat(t[..i], [t[i]], f);
    SumConcat(t[..i], t[i + 1..], f);
    assert [t[i]][..0] == [];
  }

  /** Sum is the same over two permutations of each other. */
  lemma {:induction false} SumMultiset<T>(s: seq<T>, t: seq<T>, f: T -> real)
    requires multiset(s) == multiset(t)
    ensures Sum(s, f) == Sum(t, f)
    decreases |s|
  {
    if s == [] {
      assert |t| == |multiset(t)| == 0;
    } else {
      var i := LastIn(s, t);
      SumMultiset(s[..|s| - 1], t[..i] + t[i + 1..], f);
      SumRemoveAt(t, i, f);
    }
  }

  /** The concatenation of a sequence of sequences. */
  function Flatten<T>(ss: seq<seq<T>>): seq<T>
  {
    if ss == [] then [] else Flatten(ss[..|ss| - 1]) + ss[|ss| - 1]
  }

  lemma FlattenSnoc<T>(ss: seq<seq<T>>, s: seq<T>)
    ensures Flatten(ss + [s]) == Flatten(ss) + s
  {
    assert (ss + [s])[..|ss|] == ss;
  }

  /** `g` applied to every element, the results concatenated. */
  function FlatMap<A, B>(s: seq<A>, g: A -> seq<B>): seq<B>
  {
    if s == [] then [] else FlatMap(s[..|s| - 1], g) + g(s[|s| - 1])
  }

  lemma {:induction false} FlatMapConcat<A, B>(a: seq<A>, b: seq<A>, g: A -> seq<B>)
    ensures FlatMap(a + b, g) == FlatMap(a, g) + FlatMap(b, g)
    decreases |b|
  {
    if b == [] {
      assert a + b == a;
    } else {
      var b' := b[..|b| - 1];
      assert (a + b)[..|a + b| - 1] == a + b';
      FlatMapConcat(a, b', g);
    }
  }

  /** Two sequences that agree element by element under `g` and `h` give the same result. */
  lemma {:induction false} FlatMapPointwise<A, B, C>(a: seq<A>, b: seq<B>, g: A -> seq<C>, h: B -> seq<C>)
    requires |a| == |b| && forall k :: 0 <= k < |a| ==> g(a[k]) == h(b[k])
    ensures FlatMap(a, g) == FlatMap(b, h)
  {
    if a != [] {
      FlatMapPointwise(a[..|a| - 1], b[..|b| - 1], g, h);
    }
  }

  /** Flat-mapping a list with one element taken out. */
  lemma FlatMapRemoveAt<A, B>(t: seq<A>, i: nat, g: A -> seq<B>)
    requires i < |t|
    ensures multiset(FlatMap(t, g)) == multiset(FlatMap(t[..i] + t[i + 1..], g)) + multiset(g(t[i]))
  {
    RemoveAt(t, i);
    FlatMapConcat(t[..i] + [t[i]], t[i + 1..], g);
    FlatMapConcat(t[..i], [t[i]], g);
    FlatMapConcat(t[..i], t[i + 1..], g);
    assert [t[i]][..0] == [];
  }

  /** Flat-mapping two permutations of each other gives two permutations of each other. */
  lemma {:induction false} FlatMapMultiset<A, B>(s: seq<A>, t: seq<A>, g: A -> seq<B>)
    requires multiset(s) == multiset(t)
    ensures multiset(FlatMap(s, g)) == multiset(FlatMap(t, g))
    decreases |s|
  {
    if s == [] {
      assert |t| == |multiset(t)| == 0;
    } else {
      var i := LastIn(s, t);
      FlatMapMultiset(s[..|s| - 1], t[..i] + t[i + 1..], g);
      FlatMapRemoveAt(t, i, g);
    }
  }

  /** Two sequences that agree element by element under `f` and `g` have the same sum. */
  lemma {:induction false} SumPointwise<A, B>(a: seq<A>, b: seq<B>, f: A -> real, g: B -> real)
    requires |a| == |b| && forall k :: 0 <= k < |a| ==> f(a[k]) == g(b[k])
    ensures Sum(a, f) == Sum(b, g)
  {
    if a != [] {
      SumPointwise(a[..|a| - 1], b[..|b| - 1], f, g);
    }
  }

  /** A permutation of a sequence without repetitions has none either. */
  lemma DistinctPermutation<T>(s: seq<T>, t: seq<T>)
    requires Distinct(s) && multiset(s) == multiset(t)
    ensures Distinct(t)
  {
    DistinctMultiset(s);
    forall a, b | 0 <= a < b < |t| ensures t[a] != t[b] {
      assert t == t[..b] + [t[b]] + t[b + 1..];
      assert t[a] in t[..b];
      assert multiset(t)[t[a]] == multiset(t[..b])[t[a]] + multiset([t[b]])[t[a]] + multiset(t[b + 1..])[t[a]];
      assert multiset(Elems(s))[t[a]] <= 1;
    }
  }

  /** The characters Python's `str.strip()` removes (those for which
      `str.isspace()` holds): tab to carriage return, the four separators
      0x1C-0x1F, the space, NEL, the no-break space and the Unicode space
      separators and line and paragraph separators. */
  predicate IsSpace(c: char)
  {
    || ('\t' <= c <= '\r') || ('\U{1C}' <= c <= ' ') || c == '\U{85}' || c == '\U{A0}'
    || c == '\U{1680}' || ('\U{2000}' <= c <= '\U{200A}') || c == '\U{2028}' || c == '\U{2029}'
    || c == '\U{202F}' || c == '\U{205F}' || c == '\U{3000}'
  }

  predicate AllSpace(s: string)
  {
    forall k :: 0 <= k < |s| ==> IsSpace(s[k])
  }

  /** The number of leading white-space characters. */
  function LeadingSpace(s: string): (n: nat)
    ensures n <= |s| && AllSpace(s[..n]) && (n < |s| ==> !IsSpace(s[n]))
  {
    if s == [] || !IsSpace(s[0]) then 0
    else
      var n := 1 + LeadingSpace(s[1..]);
      assert forall k :: 1 <= k < n ==> s[..n][k] == s[1..][..n - 1][k - 1];
      n
  }

  /** The length of `s` without its trailing white space. */
  function ContentEnd(s: string): (n: nat)
    ensures n <= |s| && AllSpace(s[n..]) && (n > 0 ==> !IsSpace(s[n - 1]))
  {
    if s == [] || !IsSpace(s[|s| - 1]) then |s|
    else ContentEnd(s[..|s| - 1])
  }

  /** Trailing white space starts after any other character. */
  lemma {:induction false} ContentEndAfter(s: string, k: nat)
    requires k < |s| && !IsSpace(s[k])
    ensures ContentEnd(s) > k
  {
    if IsSpace(s[|s| - 1]) {
      assert k < |s| - 1;
      ContentEndAfter(s[..|s| - 1], k);
    }
  }

  /** `s.strip()`: `s` without its leading and trailing white space. */
  function Strip(s: string): (r: string)
    ensures r == [] || (!IsSpace(r[0]) && !IsSpace(r[|r| - 1]))
  {
    var lead := LeadingSpace(s);
    if lead == |s| then [] else
      assert !IsSpace(s[lead]);
      ContentEndAfter(s, lead);
      s[lead..ContentEnd(s)]
  }

  /** Stripping removes only white space, from both ends, and leaves nothing
      exactly when the text is all white space. */
  lemma StripProperties(s: string)
    ensures exists i, j :: 0 <= i <= j <= |s| && Strip(s) == s[i..j] && AllSpace(s[..i]) && AllSpace(s[j..])
    ensures Strip(s) == [] <==> AllSpace(s)
    ensures Strip(Strip(s)) == Strip(s)
  {
    var lead := LeadingSpace(s);
    if lead == |s| {
      assert s[..lead] == s;
      assert Strip(s) == s[lead..lead] && AllSpace(s[lead..]);
    } else {
      var end := ContentEnd(s);
      ContentEndAfter(s, lead);
      assert Strip(s) == s[lead..end];
      var r := Strip(s);
      assert LeadingSpace(r) == 0;
      assert ContentEnd(r) == |r|;
      assert r[0..|r|] == r;
    }
  }
}
