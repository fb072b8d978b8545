/** The fixed-capacity ring buffer `CircBuf<T, SIZE>` of src/lib.rs, which
    overwrites its oldest element when pushed while full. */
module CircBuffer {
  import Fifo

  datatype Option<T> = None | Some(value: T)

  /** A storage cell: either never written, or holding a value. A cell keeps
      its value after that value is popped; only `start` and `len` say which
      cells are live. */
  datatype Cell<T> = Uninit | Init(value: T)

  /** The physical cell of the `i`-th oldest element when the oldest one sits
      at `start`: `(start + i) % size`, which never wraps more than once. */
  function Slot(start: nat, i: nat, size: nat): (p: nat)
    requires start < size && i <= size
    ensures p < size
    ensures p == if start + i < size then start + i else start + i - size
  {
    (start + i) % size
  }

  /** The position, counted from the oldest element, that physical cell `p`
      holds when the oldest element sits at `start`: the inverse of `Slot`. */
  function Offset(start: nat, p: nat, size: nat): (i: nat)
    requires start < size && p < size
    ensures i < size && Slot(start, i, size) == p
  {
    if start <= p then p - start else p + size - start
  }

  /** Distinct positions below the capacity occupy distinct cells, so `Slot`
      and `Offset` are inverse bijections of the cells `0 .. size`. */
  lemma SlotOffset(start: nat, i: nat, size: nat)
    requires start < size && i < size
    ensures Offset(start, Slot(start, i, size), size) == i
  {
  }

  class CircBuf<T> {
    /** The capacity, `SIZE`. */
    const Size: nat
    /** The `SIZE` backing cells, live or not. */
    const data: array<Cell<T>>
    /** Index of the cell holding the oldest live element. */
    var start: nat
    /** How many live elements there are, counted from `start`. */
    var len: nat
    /** The live elements, oldest first. */
    ghost var Contents: seq<T>

    /** The representation invariant: the live elements sit, in order, in the
        cells `(start + i) % Size` for `i < len`. */
    ghost predicate Valid()
      reads this, data
    {
      data.Length == Size &&
      (if Size == 0 then start == 0 else start < Size) &&
      len <= Size &&
      |Contents| == len &&
      forall i :: 0 <= i < len ==> data[Slot(start, i, Size)] == Init(Contents[i])
    }

    /** Creates a new, empty circular buffer of capacity `size`. */
    constructor (size: nat)
      ensures Valid() && fresh(data)
      ensures Size == size && start == 0 && len == 0 && Contents == []
      ensures forall j :: 0 <= j < size ==> data[j] == Uninit
    {
      Size := size;
      data := new Cell<T>[size](_ => Uninit);
      start, len := 0, 0;
      Contents := [];
    }

    /** `Default::default`: the same empty buffer as the constructor. */
    static method Default(size: nat) returns (b: CircBuf<T>)
      ensures fresh(b) && fresh(b.data) && b.Valid()
      ensures b.Size == size && b.start == 0 && b.len == 0 && b.Contents == []
      ensures forall j :: 0 <= j < size ==> b.data[j] == Uninit
    {
      b := new CircBuf(size);
    }

    /** Adds `elem` at the cell after the newest element. When the buffer is
        full that cell holds the oldest element, which is overwritten, and
        `start` moves on to the next oldest. */
    method Push(elem: T)
      requires Valid() && Size > 0
      modifies this, data
      ensures Valid()
      ensures data[..] == old(data[..])[Slot(old(start), old(len), Size) := Init(elem)]
      ensures old(len) < Size ==> start == old(start) && len == old(len) + 1
      ensures old(len) == Size ==> data[old(start)] == Init(elem)
      ensures old(len) == Size ==> start == Slot(old(start), 1, Size) && len == Size
      ensures Contents == Fifo.Pushed(old(Contents), Size, elem)
    {
      // The write leaves `len` alone, so asking whether the buffer is full
      // before it gives the same answer as asking after it.
      var full := IsFull();
      ghost var oldStart := start;
      var writeIdx := (start + len) % Size;
      assert writeIdx == Slot(start, len, Size);
      data[writeIdx] := Init(elem);

      if full {
        assert Slot(start, 1, Size) == (start + 1) % Size;
        start := (start + 1) % Size;
        Contents := Contents[1..] + [elem];
        forall i | 0 <= i < len
          ensures data[Slot(start, i, Size)] == Init(Contents[i])
        {
          if i < len - 1 {
            assert Slot(start, i, Size) == Slot(oldStart, i + 1, Size) != writeIdx;
          } else {
            assert Slot(start, i, Size) == writeIdx;
          }
        }
      } else {
        len := len + 1;
        Contents := Contents + [elem];
      }
    }

    /** Removes the oldest element and returns it, or returns `None` when the
        buffer is empty. The cell it came from is left as it is. */
    method Pop() returns (r: Option<T>)
      requires Valid()
      modifies this
      ensures Valid() && data[..] == old(data[..])
      ensures old(len) == 0 ==> r == None && start == old(start) && len == 0 && Contents == old(Contents)
      ensures old(len) > 0 ==> r == Some(old(Contents)[0]) && old(data[start]) == Init(r.value)
      ensures old(len) > 0 ==> start == Slot(old(start), 1, Size) && len == old(len) - 1
      ensures old(len) > 0 ==> Contents == old(Contents)[1..]
    {
      if IsEmpty() {
        r := None;
      } else {
        assert Slot(start, 0, Size) == start;
        var elem := data[start].value;
        assert Slot(start, 1, Size) == (start + 1) % Size;
        start := (start + 1) % Size;
        len := len - 1;
        Contents := Contents[1..];
        r := Some(elem);
      }
    }

    /** The number of values currently stored in the buffer. */
    function Len(): (n: nat)
      reads this, data
      requires Valid()
      ensures n == |Contents| && n <= Size
    {
      len
    }

    /** Whether the buffer contains no elements. */
    function IsEmpty(): (empty: bool)
      reads this, data
      requires Valid()
      ensures empty <==> Contents == []
    {
      len == 0
    }

    /** Whether the buffer is full, so that the next push overwrites a value. */
    function IsFull(): (full: bool)
      reads this, data
      requires Valid()
      ensures full <==> |Contents| == Size
    {
      len == Size
    }
  }
}
