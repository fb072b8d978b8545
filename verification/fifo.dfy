/** The logical view of a fixed-capacity circular buffer: the sequence of live
    elements, oldest first, and what pushing does to it. */
module Fifo {

  /** The newest `n` elements of `s`, oldest first: `s` itself when it is
      short enough, otherwise its suffix of length `n`. */
  function Newest<T>(s: seq<T>, n: nat): (r: seq<T>)
    ensures |r| == if |s| <= n then |s| else n
  {
    if |s| <= n then s else s[|s| - n..]
  }

  /** The live elements after one push of `x` into a buffer of capacity `cap`
      that holds `s`: appended while there is room, otherwise the oldest
      element is evicted. */
  function Pushed<T>(s: seq<T>, cap: nat, x: T): (r: seq<T>)
    requires 0 < cap && |s| <= cap
    ensures 0 < |r| <= cap && r[|r| - 1] == x
  {
    if |s| < cap then s + [x] else s[1..] + [x]
  }

  /** A push keeps exactly the newest `cap` of the elements held and the one
      pushed. */
  lemma PushedIsNewest<T>(s: seq<T>, cap: nat, x: T)
    requires 0 < cap && |s| <= cap
    ensures Pushed(s, cap, x) == Newest(s + [x], cap)
  {
    if |s| == cap {
      assert (s + [x])[1..] == s[1..] + [x];
    }
  }

  /** The live elements after pushing every element of `xs`, in order. */
  function PushAll<T>(s: seq<T>, cap: nat, xs: seq<T>): (r: seq<T>)
    requires 0 < cap && |s| <= cap
    ensures |r| <= cap
    decreases |xs|
  {
    if xs == [] then s
    else Pushed(PushAll(s, cap, xs[..|xs| - 1]), cap, xs[|xs| - 1])
  }

  /** Pushing onto the window of the newest `n` elements keeps the window of
      everything pushed so far. */
  lemma NewestStep<T>(s: seq<T>, n: nat, x: T)
    requires 0 < n
    ensures Newest(Newest(s, n) + [x], n) == Newest(s + [x], n)
  {
    if |s| > n {
      assert Newest(s, n) + [x] == s[|s| - n..] + [x];
      assert (s[|s| - n..] + [x])[1..] == (s + [x])[|s| + 1 - n..];
    }
  }

  /** `NewestStep` for a push of the next element of `xs` after its first `i`. */
  lemma NewestPrefixStep<T>(xs: seq<T>, i: nat, n: nat)
    requires 0 < n && i < |xs|
    ensures Newest(Newest(xs[..i], n) + [xs[i]], n) == Newest(xs[..i + 1], n)
  {
    NewestStep(xs[..i], n, xs[i]);
    assert xs[..i] + [xs[i]] == xs[..i + 1];
  }

  /** After any series of pushes the buffer holds exactly the newest `cap`
      of all elements ever pushed, oldest first. */
  lemma {:induction false} PushAllIsNewest<T>(s: seq<T>, cap: nat, xs: seq<T>)
    requires 0 < cap && |s| <= cap
    ensures PushAll(s, cap, xs) == Newest(s + xs, cap)
    decreases |xs|
  {
    if xs != [] {
      var init, last := xs[..|xs| - 1], xs[|xs| - 1];
      assert xs == init + [last];
      calc {
        PushAll(s, cap, xs);
        Pushed(PushAll(s, cap, init), cap, last);
        { PushAllIsNewest(s, cap, init); }
        Pushed(Newest(s + init, cap), cap, last);
        { PushedIsNewest(Newest(s + init, cap), cap, last); }
        Newest(Newest(s + init, cap) + [last], cap);
        { NewestStep(s + init, cap, last); }
        Newest((s + init) + [last], cap);
        { assert (s + init) + [last] == s + xs; }
        Newest(s + xs, cap);
      }
    }
  }

  /** Pushing at most `cap` elements into an empty buffer evicts nothing:
      the buffer then holds them all in push order; pushing at least `cap`
      of them leaves it full. */
  lemma {:induction false} FillFromEmpty<T>(cap: nat, xs: seq<T>)
    requires 0 < cap
    ensures |xs| <= cap ==> PushAll([], cap, xs) == xs
    ensures |PushAll([], cap, xs)| == if |xs| <= cap then |xs| else cap
  {
    PushAllIsNewest([], cap, xs);
    assert [] + xs == xs;
  }
}
