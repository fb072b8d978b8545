# circbuf-rs in Dafny

A model of `CircBuf<T, SIZE>` from `src/lib.rs`. This is a circular buffer with a fixed capacity. It holds at most `SIZE` elements. A push into a full buffer overwrites the oldest element. A pop returns the oldest element, or `None` when the buffer is empty.

The model is in three files:

- `circbuf.dfy` (module `CircBuffer`): the buffer as a class `CircBuf<T>`.
  - The fields `start`, `len` and `data` are the source's own. `data` is an `array<Cell<T>>` of length `Size`.
  - A `Cell` is `Uninit` or `Init(value)`. It stands in for Rust's `MaybeUninit<T>`.
  - A ghost field `Contents` holds the live elements, oldest first.
  - `Valid()` is the representation invariant:
    - `start < Size`, or `start == 0` when `Size == 0`;
    - `len <= Size` and `|Contents| == len`;
    - for every `i < len`, the cell `(start + i) % Size` holds `Init(Contents[i])`.
  - `Push` and `Pop` change the fields in place. Their postconditions give the new `start`, `len`, physical cells and `Contents`. `Len`, `IsEmpty` and `IsFull` are read-only functions.
- `fifo.dfy` (module `Fifo`): the logical effect of pushes, and a reference definition to check it against.
  - `Pushed` is what one push does to the live elements. `PushAll` is a whole series of pushes.
  - `Newest(s, n)` is the independent reference: the newest `n` elements of `s`.
  - The lemmas prove that after any series of pushes `xs` from contents `s`, the buffer holds `Newest(s + xs, SIZE)`: the newest `SIZE` of those elements, in push order. Pops in between are not covered by this statement; `Pop` states its own effect.
- `scenarios.dfy` (module `Scenarios`): the source's unit tests and doc examples as methods. Each postcondition is the outcome that the example asserts. Where it costs nothing, an example is generalised from a fixed capacity (8 or 4) to every capacity. `PushThenDrain` states the general FIFO property: push any sequence, then pop until the buffer is empty.

The capacity `SIZE` is a const generic in Rust. Here it is the constructor's argument, kept in `const Size`.

`push` computes `% SIZE`, which panics when `SIZE == 0`, so `Push` requires `Size > 0`. `Pop` and the queries stay defined for `Size == 0`.

## Model

| member | source | states |
|---|---|---|
| `CircBuffer.Slot` | src/lib.rs:43 | `(start + i) % SIZE` is below `SIZE` and wraps at most once: it is `start + i`, or `start + i - SIZE` once that sum reaches `SIZE` |
| `CircBuffer.Offset` | src/lib.rs:5-8 | every cell below `SIZE` is the slot of some position below `SIZE`, counted from `start` |
| `CircBuffer.SlotOffset` | src/lib.rs:5-8 | `Offset` undoes `Slot`, so distinct positions counted from `start` use distinct cells; this and `Offset` document that the layout is a bijection and are not used by the other proofs |
| `CircBuffer.CircBuf.constructor` | src/lib.rs:20-30 | `new` gives a valid buffer with `start == 0`, `len == 0`, empty contents, and every cell uninitialised |
| `CircBuffer.CircBuf.Default` | src/lib.rs:13-17 | `default` gives the same empty buffer as `new`: valid, `start == 0`, `len == 0`, empty contents, every cell uninitialised |
| `CircBuffer.CircBuf.Push` | src/lib.rs:42-51 | keeps `Valid`; writes `Init(elem)` at cell `(start + len) % SIZE` and leaves every other cell unchanged; when not full, keeps `start` and adds one to `len`; when full, overwrites the cell at the old `start` (the oldest element), moves `start` to `(start + 1) % SIZE` and keeps `len == SIZE`; contents become `Pushed(old contents)`, which is `old + [elem]` or `old[1..] + [elem]` |
| `CircBuffer.CircBuf.Pop` | src/lib.rs:65-86 | keeps `Valid` and changes no cell; when empty, returns `None` and changes nothing; otherwise returns `Some` of the cell at the old `start`, which is the oldest element; moves `start` to `(start + 1) % SIZE`, subtracts one from `len`, and leaves the old contents' tail |
| `CircBuffer.CircBuf.Len` | src/lib.rs:101-108 | `len()` is the number of live elements, at most `SIZE` |
| `CircBuffer.CircBuf.IsEmpty` | src/lib.rs:119-121 | `is_empty()` holds exactly when no element is live |
| `CircBuffer.CircBuf.IsFull` | src/lib.rs:135-137 | `is_full()` holds exactly when `SIZE` elements are live |
| `Fifo.Newest` | src/lib.rs:42-51 | the window that a buffer of capacity `n` keeps has `min(|s|, n)` elements |
| `Fifo.Pushed` | src/lib.rs:42-51 | after a push the buffer is non-empty, holds at most `SIZE` elements, and its newest element is the one pushed |
| `Fifo.PushedIsNewest` | src/lib.rs:42-51 | one push leaves exactly the newest `SIZE` of the old contents plus the new element, so eviction drops only the oldest element |
| `Fifo.PushAll` | src/lib.rs:42-51 | no series of pushes makes the buffer hold more than `SIZE` elements |
| `Fifo.NewestStep` | src/lib.rs:42-51 | pushing onto the window of the newest `n` elements gives the same window as pushing onto everything seen so far |
| `Fifo.NewestPrefixStep` | src/lib.rs:42-51 | `NewestStep` applied to the next element of a sequence being pushed in order |
| `Fifo.PushAllIsNewest` | src/lib.rs:42-51 | after any series of pushes, the contents are exactly the newest `SIZE` of the old contents followed by everything pushed, in push order |
| `Fifo.FillFromEmpty` | src/lib.rs:128-137 | pushing at most `SIZE` elements into an empty buffer keeps them all, in order; pushing at least `SIZE` of them leaves it full |
| `Scenarios.EmptyPop` | src/lib.rs:144-149 | a new buffer of any capacity is empty, `pop()` on it returns `None`, and its length stays 0 |
| `Scenarios.WrappingPush` | src/lib.rs:151-164 | with capacity 5, pushing 0..5 leaves cells `[0,1,2,3,4]`; pushing 5 then leaves `[5,1,2,3,4]` |
| `Scenarios.WrappingPop` | src/lib.rs:166-178 | with capacity 5, after pushing 0..6 `pop()` returns `Some(1)` and `len()` is 4; cell 0 holds 5 and cells 2..5 hold 2, 3, 4 |
| `Scenarios.PushThenPop` | src/lib.rs:58-63 | on an empty buffer of any positive capacity, `push(x)` then `pop()` returns `Some(x)`, and a second `pop()` returns `None` |
| `Scenarios.LenAfterPushPop` | src/lib.rs:92-99 | `len()` is 0 on a new buffer, 1 after one push, and 0 again after a pop |
| `Scenarios.FillToCapacity` | src/lib.rs:127-133 | pushing `0..SIZE` into a new buffer makes `is_full()` true and `len() == SIZE`, with 0 as the oldest element |
| `Scenarios.PushThenDrain` | src/lib.rs:42-86 | pushing any sequence and then popping until empty returns the newest `SIZE` pushed elements in push order, and the next pop returns `None`; when the sequence fits, that is the whole sequence (FIFO round trip) |
| `Scenarios.Drain` | src/lib.rs:65-86 | popping until empty returns the contents in order, leaves the buffer empty, and a further pop returns `None` |

## Left out

- `MaybeUninit` and the unsafe reads (`assume_init`, `as_ptr().read()`) at src/lib.rs:28 and src/lib.rs:79 are memory-representation details. They are modelled by `Cell`: a cell is `Uninit` until it is first written. `Valid` guarantees that every cell the code reads is `Init`.
- Ownership and drop are not modelled. A popped value stays in its cell, as the source leaves the memory untouched. An overwritten value simply disappears.
- Machine integers: `start`, `len` and `SIZE` are `usize` in Rust and unbounded naturals here. `start + len` stays below `2 * SIZE`, so it cannot overflow for any `T` that is not zero-sized. With a zero-sized `T` and a capacity near `usize::MAX`, enough pushes can make `start + len` overflow, which panics in debug builds and wraps in release builds; the model does not capture that.
- `CircBuffer.CircBuf.Push` asks whether the buffer is full before it writes the cell. The source asks after the write. The write does not change `len`, so the answer is the same.
- `Scenarios.WrappingPush`: the test's `for` loops are written out as one push per element.
- `Scenarios.WrappingPop`: the test's `for` loops are written out as one push per element.
