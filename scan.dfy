/** The search strategies of a backtracking regular-expression engine, as the OCR
    scanners use them: the leftmost start, the first alternative in the engine's
    order, a lazy `.+?`, and the `\b` assertion. */
module Scan {
  import opened Wrappers
  import opened JsString

  /** The leftmost position in `[from, n)` at which `f` finds a match, with the match:
      the engine tries start positions from left to right and keeps the first. */
  function Leftmost<T>(n: nat, from: nat, f: nat -> Option<T>): (r: Option<(nat, T)>)
    requires from <= n
    ensures r.Some? ==> from <= r.value.0 < n && f(r.value.0) == Some(r.value.1)
    ensures r.Some? ==> forall p :: from <= p < r.value.0 ==> f(p).None?
    ensures r.None? <==> forall p :: from <= p < n ==> f(p).None?
    decreases n - from
  {
    if from == n then None
    else match f(from)
      case Some(x) => Some((from, x))
      case None => Leftmost(n, from + 1, f)
  }

  /** The first candidate, in the order given, that lets the rest of the pattern match. */
  function FirstWhere(xs: seq<nat>, ok: nat -> bool): (r: Option<nat>)
    ensures r.Some? ==> ok(r.value) && exists k :: 0 <= k < |xs| && xs[k] == r.value && forall j :: 0 <= j < k ==> !ok(xs[j])
    ensures r.None? <==> forall k :: 0 <= k < |xs| ==> !ok(xs[k])
  {
    if xs == [] then None
    else if ok(xs[0]) then Some(xs[0])
    else
      var r := FirstWhere(xs[1..], ok);
      assert forall k :: 1 <= k < |xs| ==> xs[k] == xs[1..][k - 1];
      if r.Some? then
        var k :| 0 <= k < |xs[1..]| && xs[1..][k] == r.value && forall j :: 0 <= j < k ==> !ok(xs[1..][j]);
        assert xs[k + 1] == r.value;
        r
      else r
  }

  /** `hi, hi - 1, ..., lo`: the lengths a greedy quantifier tries, longest first. */
  function Descending(hi: nat, lo: nat): (xs: seq<nat>)
    ensures |xs| == if hi >= lo then hi - lo + 1 else 0
    ensures forall k :: 0 <= k < |xs| ==> xs[k] == hi - k
    decreases hi
  {
    if hi < lo then [] else if hi == 0 then [0] else [hi] + Descending(hi - 1, lo)
  }

  /** A greedy quantifier giving back one position at a time: the first of
      `hi, hi - 1, ..., lo` where the rest of the pattern, `ok`, matches. */
  function GreedyWhere(hi: nat, lo: nat, ok: nat -> bool): (r: Option<nat>)
    ensures r.Some? ==> lo <= r.value <= hi && ok(r.value)
    decreases hi
  {
    if hi < lo then None
    else if ok(hi) then Some(hi)
    else if hi == 0 then None
    else GreedyWhere(hi - 1, lo, ok)
  }

  /** The greedy search succeeds whenever some position in range works, and settles
      on one no earlier than it. */
  lemma {:induction false} GreedyWhereFinds(hi: nat, lo: nat, m: nat, ok: nat -> bool)
    requires lo <= m <= hi && ok(m)
    ensures GreedyWhere(hi, lo, ok).Some? && m <= GreedyWhere(hi, lo, ok).value
    decreases hi
  {
    if !ok(hi) {
      GreedyWhereFinds(hi - 1, lo, m, ok);
    }
  }

  /** `\b` at `i`: a word character on exactly one side. */
  predicate WordBoundary(s: string, i: nat)
    requires i <= |s|
  {
    (i > 0 && IsWordChar(s[i - 1])) != (i < |s| && IsWordChar(s[i]))
  }

  /** A lazy `.+?` that began at `p` and has consumed up to `q`, followed by the rest of
      the pattern, which `rest` says matches at a position: the engine first tries the
      shortest capture and extends it one character at a time; `.` matches no line
      terminator. The result is where the capture ends. */
  function LazyEnd(s: string, p: nat, q: nat, rest: nat -> bool): (r: Option<nat>)
    requires p < q <= |s| + 1
    requires forall k :: p <= k < q - 1 ==> !IsLineTerminator(s[k])
    ensures r.Some? ==> q <= r.value <= |s| && rest(r.value)
    ensures r.Some? ==> forall k :: p <= k < r.value ==> !IsLineTerminator(s[k])
    ensures r.Some? ==> forall k :: q <= k < r.value ==> !rest(k)
    ensures r.None? ==> forall k :: q <= k <= LineEnd(s, p) ==> !rest(k)
    decreases |s| + 1 - q
  {
    if q > |s| || IsLineTerminator(s[q - 1]) then None
    else if rest(q) then Some(q)
    else LazyEnd(s, p, q + 1, rest)
  }

  /** `(.+?)` followed by the rest of the pattern, tried at `p`: where the capture ends. */
  function LazyMatchAt(s: string, p: nat, rest: nat -> bool): (r: Option<nat>)
    ensures r.Some? ==> p < r.value <= |s| && rest(r.value)
    ensures r.Some? ==> forall k :: p <= k < r.value ==> !IsLineTerminator(s[k])
    ensures r.Some? ==> forall k :: p < k < r.value ==> !rest(k)
    ensures p < |s| && r.None? ==> forall k :: p < k <= LineEnd(s, p) ==> !rest(k)
  {
    if p < |s| then LazyEnd(s, p, p + 1, rest) else None
  }
}
