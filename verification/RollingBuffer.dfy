/**
 A bounded deque as `collections.deque(maxlen=n)` keeps it: appending to a
 full deque discards the oldest element, so the deque always holds the most
 recent samples.
 */
module RollingBuffer {

  /**
   `deque.append(x)`: add at the right, dropping the leftmost element if the
   deque is full. The result is the newest elements of `q + [x]`, as many as fit.
   */
  function Push<T>(q: seq<T>, x: T, maxlen: nat): (r: seq<T>)
    requires |q| <= maxlen
    ensures |r| == if |q| < maxlen then |q| + 1 else maxlen
    ensures r == (q + [x])[|q| + 1 - |r|..]
  {
    if maxlen == 0 then []
    else if |q| == maxlen then q[1..] + [x]
    else q + [x]
  }

  /**
   `deque.extend(xs)`: the elements of `xs` pushed one at a time, left to right.
   The result is the newest `maxlen` elements of `q + xs`.
   */
  function PushAll<T>(q: seq<T>, xs: seq<T>, maxlen: nat): (r: seq<T>)
    requires |q| <= maxlen
    ensures r == LastN(q + xs, maxlen)
    decreases |xs|
  {
    if |xs| == 0 then
      assert q + xs == q;
      q
    else
      PushStep(q, xs, maxlen);
      PushAll(Push(q, xs[0], maxlen), xs[1..], maxlen)
  }

  /** Pushing the first sample and keeping the newest of the rest is keeping the newest of all. */
  lemma PushStep<T>(q: seq<T>, xs: seq<T>, maxlen: nat)
    requires |q| <= maxlen && |xs| > 0
    ensures LastN(Push(q, xs[0], maxlen) + xs[1..], maxlen) == LastN(q + xs, maxlen)
  {
    var grown, rest := q + [xs[0]], xs[1..];
    LastNPush(q, xs[0], maxlen);
    assert Push(q, xs[0], maxlen) == LastN(grown, maxlen);
    LastNTwice(grown, rest, maxlen);
    assert grown + rest == q + xs;
  }

  /** The last `n` elements of `s` (all of `s` if it is shorter). */
  function LastN<T>(s: seq<T>, n: nat): (r: seq<T>)
    ensures |r| == if |s| <= n then |s| else n
    ensures forall k :: 0 <= k < |r| ==> r[k] == s[|s| - |r| + k]
  {
    if |s| <= n then s else s[|s| - n..]
  }

  /**
   The deque after extending: the last `maxlen` elements of the old contents
   followed by the new ones. For a full deque the length stays `maxlen`.
   */
  function Extend<T>(q: seq<T>, xs: seq<T>, maxlen: nat): (r: seq<T>)
    requires |q| <= maxlen
    ensures |q| == maxlen ==> |r| == maxlen
    ensures |xs| >= maxlen ==> r == xs[|xs| - maxlen..]
  {
    LastN(q + xs, maxlen)
  }

  lemma LastNPush<T>(s: seq<T>, x: T, n: nat)
    requires |s| <= n
    ensures Push(s, x, n) == LastN(s + [x], n)
  {
  }

  lemma LastNTwice<T>(s: seq<T>, t: seq<T>, n: nat)
    ensures LastN(LastN(s, n) + t, n) == LastN(s + t, n)
  {
    var a := LastN(s, n) + t;
    var b := s + t;
    var r1, r2 := LastN(a, n), LastN(b, n);
    assert |r1| == |r2|;
    forall k | 0 <= k < |r1|
      ensures r1[k] == r2[k]
    {
      var i := |a| - |r1| + k;
      var j := |b| - |r2| + k;
      if i >= |LastN(s, n)| {
        assert a[i] == t[i - |LastN(s, n)|];
        assert b[j] == t[j - |s|];
      } else {
        assert a[i] == LastN(s, n)[i];
      }
    }
  }

  /**
   Extending in one go agrees with appending the samples one at a time, which
   is how `deque.extend` is defined; so the buffer really keeps the most recent
   `maxlen` samples.
   */
  lemma ExtendIsPushAll<T>(q: seq<T>, xs: seq<T>, maxlen: nat)
    requires |q| <= maxlen
    ensures PushAll(q, xs, maxlen) == Extend(q, xs, maxlen)
  {
  }

  /** Extending twice is extending once with both batches. */
  lemma ExtendTwice<T>(q: seq<T>, xs: seq<T>, ys: seq<T>, maxlen: nat)
    requires |q| <= maxlen
    ensures Extend(Extend(q, xs, maxlen), ys, maxlen) == Extend(q, xs + ys, maxlen)
  {
    calc {
      Extend(Extend(q, xs, maxlen), ys, maxlen);
      LastN(LastN(q + xs, maxlen) + ys, maxlen);
      { LastNTwice(q + xs, ys, maxlen); }
      LastN(q + xs + ys, maxlen);
      { assert q + xs + ys == q + (xs + ys); }
      Extend(q, xs + ys, maxlen);
    }
  }
}
