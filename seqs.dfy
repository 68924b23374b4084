/** Sequence operations of the JavaScript built-ins the pipeline relies on:
    `indexOf` and the "keep the first occurrence" filter idiom. */
module Seqs {
  import opened Wrappers

  /** `indexOf` for one element: the first index holding `x`, or -1. */
  function IndexOf<T(==)>(s: seq<T>, x: T): (i: int)
    ensures -1 <= i < |s|
    ensures i == -1 <==> x !in s
    ensures 0 <= i ==> s[i] == x && x !in s[..i]
  {
    if |s| == 0 then -1
    else if s[0] == x then 0
    else
      var j := IndexOf(s[1..], x);
      if j == -1 then -1
      else
        assert s[..j + 1] == [s[0]] + s[1..][..j];
        j + 1
  }

  /** The first index of `x` is `i` when `x` is at `i` and nowhere before. */
  lemma IndexOfAt<T>(s: seq<T>, x: T, i: nat)
    requires i < |s| && s[i] == x && x !in s[..i]
    ensures IndexOf(s, x) == i
  {
    assert s[i] in s;
  }

  /** The elements of `s[..n]` whose index is the first index of their value:
      `filter((value, index, self) => self.indexOf(value) === index)` over a prefix. */
  function KeepFirst<T(==)>(s: seq<T>, n: nat): (r: seq<T>)
    requires n <= |s|
    decreases n
  {
    if n == 0 then []
    else KeepFirst(s, n - 1) + (if IndexOf(s, s[n - 1]) == n - 1 then [s[n - 1]] else [])
  }

  /** Removes repeated values, keeping each at its first occurrence. */
  function Dedup<T(==)>(s: seq<T>): seq<T>
  {
    KeepFirst(s, |s|)
  }

  /** Elements before `n` are judged the same way in `s` and in any extension of `s`. */
  lemma {:induction false} KeepFirstExtend<T>(s: seq<T>, t: seq<T>, n: nat)
    requires n <= |s|
    ensures KeepFirst(s + t, n) == KeepFirst(s, n)
    decreases n
  {
    if n > 0 {
      var x := s[n - 1];
      KeepFirstExtend(s, t, n - 1);
      assert x in s;
      IndexOfExtend(s, t, x);
      assert (s + t)[n - 1] == x;
      var tail := if IndexOf(s, x) == n - 1 then [x] else [];
      assert KeepFirst(s + t, n) == KeepFirst(s + t, n - 1) + tail;
    }
  }

  /** Appending one value adds it to the deduplicated sequence iff it is new. */
  lemma DedupSnoc<T>(s: seq<T>, x: T)
    ensures Dedup(s + [x]) == Dedup(s) + (if x in s then [] else [x])
  {
    KeepFirstExtend(s, [x], |s|);
    var t := s + [x];
    assert t[|s|] == x;
    assert t[..|s|] == s;
    var i := IndexOf(t, x);
    if x in s {
      var j :| 0 <= j < |s| && s[j] == x;
      assert i != |s| by { assert t[..|s|][j] == x; }
    } else {
      assert i == |s|;
    }
  }

  /** Every value of `s` occurs in `Dedup(s)` and nothing else does. */
  lemma {:induction false} DedupSameElements<T>(s: seq<T>, x: T)
    ensures x in Dedup(s) <==> x in s
    decreases |s|
  {
    if |s| > 0 {
      var init := s[..|s| - 1];
      assert s == init + [s[|s| - 1]];
      DedupSnoc(init, s[|s| - 1]);
      DedupSameElements(init, x);
    }
  }

  /** `Dedup(s)` holds no value twice. */
  lemma {:induction false} DedupNoDuplicates<T>(s: seq<T>)
    ensures forall i, j :: 0 <= i < j < |Dedup(s)| ==> Dedup(s)[i] != Dedup(s)[j]
    decreases |s|
  {
    if |s| > 0 {
      var init, last := s[..|s| - 1], s[|s| - 1];
      assert s == init + [last];
      DedupSnoc(init, last);
      DedupNoDuplicates(init);
      DedupSameElements(init, last);
    }
  }

  /** `Dedup(s)` lists values in the order of their first occurrence in `s`. */
  lemma {:induction false} DedupFirstSeenOrder<T>(s: seq<T>)
    ensures forall i, j :: 0 <= i < j < |Dedup(s)| ==> IndexOf(s, Dedup(s)[i]) < IndexOf(s, Dedup(s)[j])
    decreases |s|
  {
    if |s| > 0 {
      var init, last := s[..|s| - 1], s[|s| - 1];
      assert s == init + [last];
      DedupSnoc(init, last);
      DedupFirstSeenOrder(init);
      var d := Dedup(init);
      forall y | y in init ensures IndexOf(s, y) == IndexOf(init, y) {
        IndexOfExtend(init, [last], y);
      }
      forall i | 0 <= i < |d| ensures d[i] in init {
        DedupSameElements(init, d[i]);
      }
      if last !in init {
        assert IndexOf(s, last) == |init| by { assert s[|init|] == last; assert s[..|init|] == init; }
      }
    }
  }

  /** The first index of a value already present is unaffected by appending. */
  lemma {:induction false} IndexOfExtend<T>(s: seq<T>, t: seq<T>, x: T)
    requires x in s
    ensures IndexOf(s + t, x) == IndexOf(s, x)
    decreases |s|
  {
    if s[0] != x {
      assert (s + t)[1..] == s[1..] + t;
      IndexOfExtend(s[1..], t, x);
    }
  }

  /** The first present entry of `xs` at or after `from`, with its index. */
  function FirstPresent<T>(xs: seq<Option<T>>, from: nat): (r: Option<(nat, T)>)
    requires from <= |xs|
    ensures r.Some? ==> from <= r.value.0 < |xs| && xs[r.value.0] == Some(r.value.1)
    ensures r.Some? ==> forall j :: from <= j < r.value.0 ==> xs[j].None?
    ensures r.None? <==> forall j :: from <= j < |xs| ==> xs[j].None?
    decreases |xs| - from
  {
    if from == |xs| then None
    else if xs[from].Some? then Some((from, xs[from].value))
    else FirstPresent(xs, from + 1)
  }

  /** The present results of `f` over `xs`, in order. */
  function Collect<A, B>(xs: seq<A>, f: A -> Option<B>): (r: seq<B>)
    ensures |r| <= |xs|
    decreases |xs|
  {
    if xs == [] then []
    else
      var last := match f(xs[|xs| - 1]) case None => [] case Some(b) => [b];
      Collect(xs[..|xs| - 1], f) + last
  }

  /** A value is collected exactly when `f` yields it for some element. */
  lemma {:induction false} CollectMembers<A, B>(xs: seq<A>, f: A -> Option<B>, b: B)
    ensures b in Collect(xs, f) <==> exists k :: 0 <= k < |xs| && f(xs[k]) == Some(b)
    decreases |xs|
  {
    if xs != [] {
      var init := xs[..|xs| - 1];
      var x := xs[|xs| - 1];
      CollectMembers(init, f, b);
      var last := match f(x) case None => [] case Some(c) => [c];
      assert Collect(xs, f) == Collect(init, f) + last;
      assert b in last <==> f(x) == Some(b);
      if exists k :: 0 <= k < |init| && f(init[k]) == Some(b) {
        var k :| 0 <= k < |init| && f(init[k]) == Some(b);
        assert xs[k] == init[k];
      }
      if exists k :: 0 <= k < |xs| && f(xs[k]) == Some(b) {
        var k :| 0 <= k < |xs| && f(xs[k]) == Some(b);
        if k < |init| {
          assert init[k] == xs[k];
        }
      }
    }
  }

  /** Collecting one more element adds its result, if any, at the end. */
  lemma CollectSnoc<A, B>(xs: seq<A>, f: A -> Option<B>, x: A)
    ensures Collect(xs + [x], f) == Collect(xs, f) + (match f(x) case None => [] case Some(b) => [b])
  {
    assert (xs + [x])[..|xs|] == xs;
  }

  /** Every collected value is one that `f` yields, so it has every property all of
      `f`'s values have. */
  lemma {:induction false} CollectAll<A, B>(xs: seq<A>, f: A -> Option<B>, P: B -> bool)
    requires forall x :: f(x).Some? ==> P(f(x).value)
    ensures forall i :: 0 <= i < |Collect(xs, f)| ==> P(Collect(xs, f)[i])
    decreases |xs|
  {
    if xs != [] {
      var init := xs[..|xs| - 1];
      CollectAll(init, f, P);
      var before := Collect(init, f);
      var rs := Collect(xs, f);
      assert forall i :: 0 <= i < |before| ==> rs[i] == before[i];
    }
  }

  /** When `f` yields a value for every element, one value is collected per element,
      in order. */
  lemma {:induction false} CollectTotal<A, B>(xs: seq<A>, f: A -> Option<B>)
    requires forall k :: 0 <= k < |xs| ==> f(xs[k]).Some?
    ensures |Collect(xs, f)| == |xs|
    ensures forall k :: 0 <= k < |xs| ==> f(xs[k]) == Some(Collect(xs, f)[k])
    decreases |xs|
  {
    if xs != [] {
      var init := xs[..|xs| - 1];
      CollectTotal(init, f);
      var before := Collect(init, f);
      var rs := Collect(xs, f);
      assert rs == before + [f(xs[|xs| - 1]).value];
      forall k | 0 <= k < |xs|
        ensures f(xs[k]) == Some(rs[k])
      {
        if k < |init| {
          assert init[k] == xs[k] && rs[k] == before[k];
        }
      }
    }
  }

  /** The results of `f` over `xs`, concatenated in order. */
  function Flatten<A, B>(xs: seq<A>, f: A -> seq<B>): seq<B>
    decreases |xs|
  {
    if xs == [] then [] else Flatten(xs[..|xs| - 1], f) + f(xs[|xs| - 1])
  }

  /** One more element adds its results at the end. */
  lemma FlattenSnoc<A, B>(xs: seq<A>, f: A -> seq<B>, x: A)
    ensures Flatten(xs + [x], f) == Flatten(xs, f) + f(x)
  {
    assert (xs + [x])[..|xs|] == xs;
  }

  /** A value is in the concatenation exactly when it is among the results of some
      element. */
  lemma {:induction false} FlattenMembers<A, B>(xs: seq<A>, f: A -> seq<B>, b: B)
    ensures b in Flatten(xs, f) <==> exists k :: 0 <= k < |xs| && b in f(xs[k])
    decreases |xs|
  {
    if xs != [] {
      var init := xs[..|xs| - 1];
      FlattenMembers(init, f, b);
      assert Flatten(xs, f) == Flatten(init, f) + f(xs[|xs| - 1]);
      if b in Flatten(init, f) {
        var k :| 0 <= k < |init| && b in f(init[k]);
        assert init[k] == xs[k];
      }
      if k :| 0 <= k < |xs| && b in f(xs[k]) {
        if k < |init| {
          assert init[k] == xs[k];
        }
      }
    }
  }

  /** A slice of a slice is a slice of the whole. */
  lemma SliceOfSlice<T>(s: seq<T>, i: nat, j: nat, a: nat, b: nat)
    requires i <= j <= |s| && a <= b <= j - i
    ensures s[i..j][a..b] == s[i + a..i + b]
  {
    var t := s[i..j];
    forall k | 0 <= k < b - a
      ensures t[a..b][k] == s[i + a..i + b][k]
    {
      assert t[a..b][k] == t[a + k];
      assert t[a + k] == s[i + (a + k)];
    }
  }

  /** Appending `b` then `c` is appending `b + c`. */
  lemma AppendAppend<T>(a: seq<T>, b: seq<T>, c: seq<T>)
    ensures (a + b) + c == a + (b + c)
  {
  }
}
