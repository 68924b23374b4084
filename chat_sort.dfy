/** The final `messages.sort((a, b) => b.timestamp.getTime() - a.timestamp.getTime())`
    of `parseChat` (src/lib/parseChat.ts:165).

    The comparator is read as `Array.prototype.sort` reads it: a positive result puts
    `b` first, and a NaN result (an Invalid Date on either side) counts as 0, "equal".
    The sort is stable. With an Invalid Date present the comparator is not a consistent
    order and the engine's result is implementation-defined; the model sorts by stable
    insertion and claims only that the result is a permutation in that case. */
module ChatSort {
  import opened PaymentRecords

  /** Whether the comparator puts `y` strictly before `x`: `y` is the later instant. */
  predicate Newer(y: Message, x: Message) {
    y.timestamp.Time? && x.timestamp.Time? && y.timestamp.ms > x.timestamp.ms
  }

  /** Inserts `x` before the first message that is not newer than it. */
  function Insert(x: Message, s: seq<Message>): (r: seq<Message>)
    ensures multiset(r) == multiset(s) + multiset{x}
  {
    if s == [] then [x]
    else
      assert s == [s[0]] + s[1..];
      if Newer(s[0], x) then [s[0]] + Insert(x, s[1..]) else [x] + s
  }

  /** Stable insertion sort, newest first. */
  function SortNewestFirst(ms: seq<Message>): (r: seq<Message>)
  {
    if ms == [] then [] else Insert(ms[0], SortNewestFirst(ms[1..]))
  }

  predicate AllValid(ms: seq<Message>) {
    forall k :: 0 <= k < |ms| ==> ms[k].timestamp.Time?
  }

  /** Newest first: no message has a later instant than one before it. */
  predicate NewestFirst(ms: seq<Message>)
    requires AllValid(ms)
  {
    forall i, j :: 0 <= i < j < |ms| ==> ms[i].timestamp.ms >= ms[j].timestamp.ms
  }

  /** The sort returns the same messages, each as often as it was given. */
  lemma {:induction false} SortIsPermutation(ms: seq<Message>)
    ensures multiset(SortNewestFirst(ms)) == multiset(ms)
  {
    if ms != [] {
      SortIsPermutation(ms[1..]);
      assert ms == [ms[0]] + ms[1..];
    }
  }

  /** When every instant is valid the result is ordered newest first. */
  lemma {:induction false} SortIsOrdered(ms: seq<Message>)
    requires AllValid(ms)
    ensures AllValid(SortNewestFirst(ms)) && NewestFirst(SortNewestFirst(ms))
  {
    if ms != [] {
      assert AllValid(ms[1..]) by {
        forall k | 0 <= k < |ms| - 1 ensures ms[1..][k].timestamp.Time? { assert ms[1..][k] == ms[k + 1]; }
      }
      SortIsOrdered(ms[1..]);
      SortIsPermutation(ms[1..]);
      InsertKeepsOrder(ms[0], SortNewestFirst(ms[1..]));
    }
  }

  /** Inserting keeps every message at or before a bound that `x` and `s` respect. */
  lemma InsertBounded(x: Message, s: seq<Message>, bound: int)
    requires x.timestamp.Time? && x.timestamp.ms <= bound
    requires forall k :: 0 <= k < |s| ==> s[k].timestamp.Time? && s[k].timestamp.ms <= bound
    ensures forall k :: 0 <= k < |Insert(x, s)| ==>
      Insert(x, s)[k].timestamp.Time? && Insert(x, s)[k].timestamp.ms <= bound
  {
    var r := Insert(x, s);
    forall k | 0 <= k < |r| ensures r[k].timestamp.Time? && r[k].timestamp.ms <= bound {
      assert r[k] in multiset(r);
      if r[k] != x {
        assert r[k] in multiset(s);
        var j :| 0 <= j < |s| && s[j] == r[k];
      }
    }
  }

  /** A message no older than any of an ordered sequence can go in front of it. */
  lemma ConsOrdered(y: Message, r: seq<Message>)
    requires y.timestamp.Time? && AllValid(r) && NewestFirst(r)
    requires forall k :: 0 <= k < |r| ==> r[k].timestamp.ms <= y.timestamp.ms
    ensures AllValid([y] + r) && NewestFirst([y] + r)
  {
    var u := [y] + r;
    assert forall k :: 0 < k < |u| ==> u[k] == r[k - 1];
    forall i, j | 0 <= i < j < |u| ensures u[i].timestamp.ms >= u[j].timestamp.ms {
      if i > 0 {
        assert r[i - 1].timestamp.ms >= r[j - 1].timestamp.ms;
      }
    }
  }

  /** The tail of an ordered sequence is ordered and no newer than its head. */
  lemma TailOrdered(s: seq<Message>)
    requires s != [] && AllValid(s) && NewestFirst(s)
    ensures AllValid(s[1..]) && NewestFirst(s[1..])
    ensures forall k :: 0 <= k < |s| - 1 ==> s[1..][k].timestamp.ms <= s[0].timestamp.ms
  {
    assert forall k :: 0 <= k < |s| - 1 ==> s[1..][k] == s[k + 1];
  }

  lemma {:induction false} InsertKeepsOrder(x: Message, s: seq<Message>)
    requires x.timestamp.Time? && AllValid(s) && NewestFirst(s)
    ensures AllValid(Insert(x, s)) && NewestFirst(Insert(x, s))
  {
    if s != [] && Newer(s[0], x) {
      var t := s[1..];
      TailOrdered(s);
      InsertKeepsOrder(x, t);
      InsertBounded(x, t, s[0].timestamp.ms);
      assert Insert(x, s) == [s[0]] + Insert(x, t);
      ConsOrdered(s[0], Insert(x, t));
    } else if s != [] {
      assert Insert(x, s) == [x] + s;
      assert forall k :: 0 <= k < |s| ==> s[k].timestamp.ms <= s[0].timestamp.ms;
      ConsOrdered(x, s);
    }
  }
}
