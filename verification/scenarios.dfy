/** The usage examples and unit tests of src/lib.rs, stated as methods whose
    postconditions are the outcomes those examples check. */
module Scenarios {
  import Fifo
  import opened CircBuffer

  /** A fresh buffer is empty and popping it yields nothing and changes nothing. */
  method EmptyPop<T>(size: nat) returns (wasEmpty: bool, r: Option<T>, n: nat)
    ensures wasEmpty && r == None && n == 0
  {
    var b := new CircBuf<T>(size);
    wasEmpty := b.IsEmpty();
    r := b.Pop();
    n := b.Len();
  }

  /** Pushing 0..5 into a buffer of capacity 5 fills the cells in order; one
      more push overwrites the oldest cell, cell 0. */
  method WrappingPush() returns (filled: seq<Cell<int>>, wrapped: seq<Cell<int>>)
    ensures filled == [Init(0), Init(1), Init(2), Init(3), Init(4)]
    ensures wrapped == [Init(5), Init(1), Init(2), Init(3), Init(4)]
  {
    var b := new CircBuf<int>(5);
    b.Push(0); b.Push(1); b.Push(2); b.Push(3); b.Push(4);
    assert b.start == 0 && b.len == 5;
    filled := b.data[..];
    b.Push(5);
    wrapped := b.data[..];
  }

  /** Pushing 0..6 into a buffer of capacity 5 evicts 0, so the first pop
      yields 1 and leaves four elements; cell 0 holds 5 and cells 2..5 still
      hold 2, 3 and 4. */
  method WrappingPop() returns (popped: Option<int>, n: nat, cell0: Cell<int>, tail: seq<Cell<int>>)
    ensures popped == Some(1) && n == 4
    ensures cell0 == Init(5) && tail == [Init(2), Init(3), Init(4)]
  {
    var b := new CircBuf<int>(5);
    b.Push(0); b.Push(1); b.Push(2); b.Push(3); b.Push(4);
    assert b.start == 0 && b.len == 5;
    b.Push(5);
    assert b.start == 1 && b.len == 5;
    assert b.data[..] == [Init(5), Init(1), Init(2), Init(3), Init(4)];
    popped := b.Pop();
    n := b.Len();
    cell0 := b.data[0];
    tail := b.data[2..];
  }

  /** Pushing one value into an empty buffer and popping twice yields that
      value and then nothing. */
  method PushThenPop<T>(size: nat, x: T) returns (first: Option<T>, second: Option<T>)
    requires size > 0
    ensures first == Some(x) && second == None
  {
    var b := new CircBuf<T>(size);
    b.Push(x);
    first := b.Pop();
    second := b.Pop();
  }

  /** The length of an empty buffer is 0, 1 after a push and 0 after a pop. */
  method LenAfterPushPop<T>(size: nat, x: T) returns (n0: nat, n1: nat, n2: nat)
    requires size > 0
    ensures n0 == 0 && n1 == 1 && n2 == 0
  {
    var b := new CircBuf<T>(size);
    n0 := b.Len();
    b.Push(x);
    n1 := b.Len();
    var _ := b.Pop();
    n2 := b.Len();
  }

  /** Pushing 0..size into an empty buffer of capacity `size` makes it full,
      with its oldest element 0 when there is one. */
  method FillToCapacity(size: nat) returns (full: bool, n: nat, oldest: Option<int>)
    ensures full && n == size
    ensures oldest == if size == 0 then None else Some(0)
  {
    var b := new CircBuf<int>(size);
    for i := 0 to size
      invariant fresh(b) && fresh(b.data) && b.Valid() && b.Size == size
      invariant b.Contents == seq(i, j => j)
    {
      b.Push(i);
    }
    full := b.IsFull();
    n := b.Len();
    oldest := b.Pop();
  }

  /** Pushing all of `xs` and then popping until the buffer is empty yields
      the newest `size` elements of `xs` in push order, after which a further
      pop yields nothing; when `xs` fits, that is all of `xs`. */
  method PushThenDrain<T>(size: nat, xs: seq<T>) returns (out: seq<T>, last: Option<T>)
    requires size > 0
    ensures out == Fifo.Newest(xs, size) && last == None
    ensures |xs| <= size ==> out == xs
  {
    var b := new CircBuf<T>(size);
    for i := 0 to |xs|
      invariant fresh(b) && fresh(b.data) && b.Valid() && b.Size == size
      invariant b.Contents == Fifo.Newest(xs[..i], size)
    {
      Fifo.PushedIsNewest(b.Contents, size, xs[i]);
      Fifo.NewestPrefixStep(xs, i, size);
      b.Push(xs[i]);
    }
    assert xs[..|xs|] == xs;
    out, last := Drain(b);
  }

  /** Pops until the buffer is empty, collecting what it yields, and pops
      once more. */
  method Drain<T>(b: CircBuf<T>) returns (out: seq<T>, last: Option<T>)
    requires b.Valid()
    modifies b
    ensures b.Valid() && b.Contents == []
    ensures out == old(b.Contents) && last == None
  {
    out := [];
    while !b.IsEmpty()
      invariant b.Valid()
      invariant out + b.Contents == old(b.Contents)
      decreases |b.Contents|
    {
      ghost var before := b.Contents;
      var r := b.Pop();
      MoveHead(out, before);
      out := out + [r.value];
    }
    last := b.Pop();
  }

  /** Moving the head of `s` to the end of `out` keeps their concatenation. */
  lemma MoveHead<T>(out: seq<T>, s: seq<T>)
    requires s != []
    ensures (out + [s[0]]) + s[1..] == out + s
  {
    assert s == [s[0]] + s[1..];
  }
}
