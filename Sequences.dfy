/** The .NET library calls on strings, arrays and enumerables that the program relies on. */
module Sequences {

  /**
   * `Array.IndexOf(s, x)` and `string.IndexOf(x)`: the position of the first `x` in `s`, or -1
   * when there is none.
   */
  function IndexOf<T(==)>(s: seq<T>, x: T): (r: int)
    ensures -1 <= r < |s|
    ensures r >= 0 ==> s[r] == x
  {
    if |s| == 0 then -1
    else if s[0] == x then 0
    else
      var k := IndexOf(s[1..], x);
      if k < 0 then -1 else k + 1
  }

  /** `IndexOf` misses exactly when `x` does not occur, and otherwise finds the first `x`. */
  lemma {:induction false} IndexOfFirst<T>(s: seq<T>, x: T)
    ensures IndexOf(s, x) == -1 <==> x !in s
    ensures IndexOf(s, x) >= 0 ==> x !in s[..IndexOf(s, x)]
  {
    if |s| > 0 && s[0] != x {
      IndexOfFirst(s[1..], x);
      assert s == [s[0]] + s[1..];
      var k := IndexOf(s[1..], x);
      if k >= 0 {
        assert s[..k + 1] == [s[0]] + s[1..][..k];
      }
    }
  }

  /** In a sequence without repetitions, `IndexOf` inverts indexing. */
  lemma IndexOfDistinct<T>(s: seq<T>, i: int)
    requires 0 <= i < |s|
    requires forall j, k :: 0 <= j < k < |s| ==> s[j] != s[k]
    ensures IndexOf(s, s[i]) == i
  {
    IndexOfFirst(s, s[i]);
  }

  /** LINQ `Take(n)`: the first `n` elements; none for `n <= 0`, all of them for `n >= |s|`. */
  function Take<T>(s: seq<T>, n: int): (r: seq<T>)
    ensures n <= 0 ==> r == []
    ensures 0 <= n <= |s| ==> r == s[..n]
    ensures n >= |s| ==> r == s
  {
    if n <= 0 then [] else if n >= |s| then s else s[..n]
  }

  /** LINQ `Skip(n)`: all but the first `n` elements; all of them for `n <= 0`, none for `n >= |s|`. */
  function Skip<T>(s: seq<T>, n: int): (r: seq<T>)
    ensures n <= 0 ==> r == s
    ensures 0 <= n <= |s| ==> r == s[n..]
    ensures n >= |s| ==> r == []
  {
    if n <= 0 then s else if n >= |s| then [] else s[n..]
  }

  /** `string.StartsWith(prefix)`, taken as an ordinal comparison. */
  predicate StartsWith<T(==)>(s: seq<T>, prefix: seq<T>)
  {
    |prefix| <= |s| && s[..|prefix|] == prefix
  }

  /** The strings of `ss` joined with no separator, as repeated `+=` builds them. */
  function Concat(ss: seq<string>): string
  {
    if |ss| == 0 then "" else Concat(ss[..|ss| - 1]) + ss[|ss| - 1]
  }

  lemma {:induction false} ConcatAppend(ss: seq<string>, ts: seq<string>)
    ensures Concat(ss + ts) == Concat(ss) + Concat(ts)
    decreases |ts|
  {
    if |ts| == 0 {
      assert ss + ts == ss;
    } else {
      var last := |ts| - 1;
      var init := ts[..last];
      ConcatAppend(ss, init);
      assert (ss + ts)[..|ss + ts| - 1] == ss + init;
      calc {
        Concat(ss + ts);
        Concat(ss + init) + ts[last];
        (Concat(ss) + Concat(init)) + ts[last];
        Concat(ss) + (Concat(init) + ts[last]);
      }
    }
  }

  /** The number of elements of `s` equal to `x`. */
  function Count<T(==)>(s: seq<T>, x: T): (r: nat)
    ensures r <= |s|
    ensures r == 0 <==> x !in s
  {
    if |s| == 0 then 0
    else
      assert s[..|s| - 1] + [s[|s| - 1]] == s;
      Count(s[..|s| - 1], x) + (if s[|s| - 1] == x then 1 else 0)
  }

  /** The position of the last `x` in `s`, or -1 when there is none. */
  function LastIndexOf<T(==)>(s: seq<T>, x: T): (r: int)
    ensures -1 <= r < |s|
    ensures r >= 0 ==> s[r] == x
  {
    if |s| == 0 then -1
    else if s[|s| - 1] == x then |s| - 1
    else LastIndexOf(s[..|s| - 1], x)
  }

  /** Nothing after the position LastIndexOf gives is `x`. */
  lemma {:induction false} LastIndexOfLast<T>(s: seq<T>, x: T, j: int)
    requires LastIndexOf(s, x) < j < |s|
    ensures s[j] != x
    decreases |s|
  {
    if s[|s| - 1] != x && j < |s| - 1 {
      LastIndexOfLast(s[..|s| - 1], x, j);
    }
  }

  /** A non-empty sequence is its front followed by its last element. */
  lemma FrontLast<T>(s: seq<T>)
    requires |s| > 0
    ensures s[..|s| - 1] + [s[|s| - 1]] == s
  {
  }

  /** Appending something other than `x` leaves the last `x` where it was. */
  lemma LastIndexOfSnoc<T>(s: seq<T>, y: T, x: T)
    requires y != x
    ensures LastIndexOf(s + [y], x) == LastIndexOf(s, x)
  {
    assert (s + [y])[..|s|] == s;
  }

  /** Appending elements other than `x` leaves the last `x` where it was. */
  lemma {:induction false} LastIndexOfAppend<T>(s: seq<T>, t: seq<T>, x: T)
    requires x !in t
    ensures LastIndexOf(s + t, x) == LastIndexOf(s, x)
    decreases |t|
  {
    if |t| == 0 {
      assert s + t == s;
    } else {
      var init, y := t[..|t| - 1], t[|t| - 1];
      assert s + t == (s + init) + [y];
      assert y in t;
      LastIndexOfAppend(s, init, x);
      LastIndexOfSnoc(s + init, y, x);
    }
  }

  /** Joining a suffix of `s + t` that starts inside `s`. */
  lemma ConcatFrom(s: seq<string>, t: seq<string>, k: int)
    requires 0 <= k <= |s|
    ensures Concat((s + t)[k..]) == Concat(s[k..]) + Concat(t)
  {
    assert (s + t)[k..] == s[k..] + t;
    ConcatAppend(s[k..], t);
  }

  /** The strings after the last `x` in `s`, joined (all of them when there is no `x`). */
  function JoinedAfterLast(s: seq<string>, x: string): string
  {
    Concat(s[LastIndexOf(s, x) + 1..])
  }

  /** Appending lines other than `x` extends what follows the last `x`. */
  lemma ConcatAfterLast(s: seq<string>, t: seq<string>, x: string)
    requires x !in t
    ensures JoinedAfterLast(s + t, x) == JoinedAfterLast(s, x) + Concat(t)
  {
    var k := LastIndexOf(s, x) + 1;
    LastIndexOfAppend(s, t, x);
    ConcatFrom(s, t, k);
    assert (s + t)[LastIndexOf(s + t, x) + 1..] == (s + t)[k..];
  }

  /** Joining a suffix of `s + [y]` is joining that suffix of `s`, then `y`. */
  lemma ConcatSnocFrom(s: seq<string>, y: string, k: int)
    requires 0 <= k <= |s|
    ensures Concat((s + [y])[k..]) == Concat(s[k..]) + y
  {
    var t := (s + [y])[k..];
    assert t[..|t| - 1] == s[k..];
  }

  /** Joining a slice is its first string followed by the join of the rest. */
  lemma ConcatFirst(ss: seq<string>, i: int, j: int)
    requires 0 <= i < j <= |ss|
    ensures Concat(ss[i..j]) == ss[i] + Concat(ss[i + 1..j])
  {
    assert ss[i..j] == [ss[i]] + ss[i + 1..j];
    ConcatAppend([ss[i]], ss[i + 1..j]);
    assert [ss[i]][..0] == [];
  }

  /** A slice whose first element is not `x` and whose rest lacks `x` lacks `x`. */
  lemma NotInSlice<T>(s: seq<T>, i: int, j: int, x: T)
    requires 0 <= i < j <= |s| && s[i] != x && x !in s[i + 1..j]
    ensures x !in s[i..j]
  {
    assert s[i..j] == [s[i]] + s[i + 1..j];
  }

  /** Slicing a prefix again, inside the prefix. */
  lemma SliceOfPrefix<T>(s: seq<T>, n: int, i: int, j: int)
    requires 0 <= i <= j <= n <= |s|
    ensures s[..n][i..j] == s[i..j]
  {
  }

  /** A slice that lies in the left operand of a concatenation. */
  lemma SliceLeft<T>(a: seq<T>, b: seq<T>, i: int, j: int)
    requires 0 <= i <= j <= |a|
    ensures (a + b)[i..j] == a[i..j]
  {
  }

  /** The slice that is exactly the right operand of a concatenation. */
  lemma SliceRight<T>(a: seq<T>, b: seq<T>)
    ensures (a + b)[|a|..|a| + |b|] == b
  {
  }

  /**
   * `f` applied to each block of four consecutive elements of `s`, the results in block order
   * (for a length that is not a multiple of four, the first `|s| % 4` elements are dropped).
   */
  function MapQuads<A, B>(s: seq<A>, f: seq<A> -> seq<B>): seq<B>
    decreases |s|
  {
    if |s| < 4 then [] else MapQuads(s[..|s| - 4], f) + f(s[|s| - 4..])
  }

  /** The same for blocks of three. */
  function MapTriples<A, B>(s: seq<A>, f: seq<A> -> seq<B>): seq<B>
    decreases |s|
  {
    if |s| < 3 then [] else MapTriples(s[..|s| - 3], f) + f(s[|s| - 3..])
  }

  lemma {:induction false} MapQuadsLength<A, B>(s: seq<A>, f: seq<A> -> seq<B>, m: nat)
    requires forall g :: |g| == 4 ==> |f(g)| == 3
    requires |s| == 4 * m
    ensures |MapQuads(s, f)| == 3 * m
    decreases m
  {
    if m > 0 {
      MapQuadsLength(s[..|s| - 4], f, m - 1);
    }
  }

  lemma {:induction false} MapTriplesLength<A, B>(s: seq<A>, f: seq<A> -> seq<B>, m: nat)
    requires forall t :: |t| == 3 ==> |f(t)| == 4
    requires |s| == 3 * m
    ensures |MapTriples(s, f)| == 4 * m
    decreases m
  {
    if m > 0 {
      MapTriplesLength(s[..|s| - 3], f, m - 1);
    }
  }

  /** When every image of a block satisfies `p` element by element, so does their concatenation. */
  lemma {:induction false} MapTriplesAll<A, B>(s: seq<A>, f: seq<A> -> seq<B>, p: B -> bool, m: nat)
    requires forall t, k :: |t| == 3 && 0 <= k < |f(t)| ==> p(f(t)[k])
    requires |s| == 3 * m
    ensures forall k :: 0 <= k < |MapTriples(s, f)| ==> p(MapTriples(s, f)[k])
    decreases m
  {
    if m > 0 {
      var front, last := s[..|s| - 3], s[|s| - 3..];
      MapTriplesAll(front, f, p, m - 1);
      var a, b := MapTriples(front, f), f(last);
      assert MapTriples(s, f) == a + b;
      forall k | 0 <= k < |a + b| ensures p((a + b)[k]) {
        if k >= |a| {
          assert (a + b)[k] == b[k - |a|];
        }
      }
    }
  }

  /** One more block adds its image at the end. */
  lemma MapQuadsSnoc<A, B>(s: seq<A>, g: seq<A>, f: seq<A> -> seq<B>)
    requires |g| == 4
    ensures MapQuads(s + g, f) == MapQuads(s, f) + f(g)
  {
    var t := s + g;
    assert t[..|t| - 4] == s && t[|t| - 4..] == g;
  }

  lemma MapTriplesSnoc<A, B>(s: seq<A>, t: seq<A>, f: seq<A> -> seq<B>)
    requires |t| == 3
    ensures MapTriples(s + t, f) == MapTriples(s, f) + f(t)
  {
    var u := s + t;
    assert u[..|u| - 3] == s && u[|u| - 3..] == t;
  }

  /** Block `j` of the result is the image of block `j` of `s`. */
  lemma {:induction false} MapQuadsAt<A, B>(s: seq<A>, f: seq<A> -> seq<B>, m: nat, j: int)
    requires forall g :: |g| == 4 ==> |f(g)| == 3
    requires |s| == 4 * m && 0 <= j < m
    ensures |MapQuads(s, f)| == 3 * m
    ensures MapQuads(s, f)[3 * j..3 * j + 3] == f(s[4 * j..4 * j + 4])
    decreases m
  {
    var n := |s| - 4;
    var front, last := MapQuads(s[..n], f), f(s[n..]);
    MapQuadsLength(s[..n], f, m - 1);
    assert |front| == 3 * (m - 1) && |last| == 3;
    assert MapQuads(s, f) == front + last;
    if j < m - 1 {
      MapQuadsAt(s[..n], f, m - 1, j);
      SliceOfPrefix(s, n, 4 * j, 4 * j + 4);
      SliceLeft(front, last, 3 * j, 3 * j + 3);
    } else {
      assert s[4 * j..4 * j + 4] == s[n..];
      SliceRight(front, last);
    }
  }

  /** Mapping triples with `e` and then quads with `d` gives the triples back when `d` undoes `e`. */
  lemma {:induction false} MapQuadsOfTriples<A, B>(s: seq<A>, e: seq<A> -> seq<B>, d: seq<B> -> seq<A>, m: nat)
    requires forall t {:trigger e(t)} :: |t| == 3 ==> |e(t)| == 4 && d(e(t)) == t
    requires |s| == 3 * m
    ensures MapQuads(MapTriples(s, e), d) == s
    decreases m
  {
    if m > 0 {
      var n := |s| - 3;
      MapQuadsOfTriples(s[..n], e, d, m - 1);
      MapQuadsSnoc(MapTriples(s[..n], e), e(s[n..]), d);
      assert s[..n] + s[n..] == s;
    }
  }

  /**
   * Mapping quads with `d` and then triples with `e` gives the quads back when `e` undoes `d` on
   * every block of elements with property `p`.
   */
  lemma {:induction false} MapTriplesOfQuads<A, B>(s: seq<A>, d: seq<A> -> seq<B>, e: seq<B> -> seq<A>, p: A -> bool, m: nat)
    requires forall g {:trigger d(g)} :: |g| == 4 ==> |d(g)| == 3
    requires forall g {:trigger d(g)} :: |g| == 4 && (forall k :: 0 <= k < 4 ==> p(g[k])) ==> e(d(g)) == g
    requires |s| == 4 * m && forall k :: 0 <= k < |s| ==> p(s[k])
    ensures MapTriples(MapQuads(s, d), e) == s
    decreases m
  {
    if m > 0 {
      var n := |s| - 4;
      var g := s[n..];
      assert forall k :: 0 <= k < 4 ==> p(g[k]);
      MapTriplesOfQuads(s[..n], d, e, p, m - 1);
      MapTriplesSnoc(MapQuads(s[..n], d), d(g), e);
      assert s[..n] + g == s;
    }
  }
}
