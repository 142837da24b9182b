/**
 An explicit producer's sub-queue as a data structure (concurrentqueue.h, ExplicitProducer): a
 circular list of blocks, reused when empty and grown when not, and a circular index of blocks, which
 doubles.  Whole calls of enqueue and dequeue are proved to implement a first-in first-out sequence.
 Blocks live in `blocks` and are named by their position; index_t has 64 bits and wraps around.
 */
module ExplicitProducer {

  import opened Powers
  import opened Words
  import opened Wrappers

  const BLOCK_SIZE := 32
  const BLOCKS_PER_WORD := 0x800_0000_0000_0000    // WORD / BLOCK_SIZE

  /** A block: constructed elements, the emptyFlags (stored backwards) and the next block of the ring. */
  datatype Block<T> = Block(elements: seq<Option<T>>, emptyFlags: seq<bool>, next: nat)

  /** An index entry: the first index of the block, as a word, and the block. */
  datatype Entry = Entry(base: nat, block: nat)

  // ---------------------------------------------------------------- words and powers of two

  /** A counter as index_t holds it. */
  function Word(x: nat): (w: nat)
    ensures w < WORD && w % BLOCK_SIZE == x % BLOCK_SIZE
  {
    x % WORD
  }

  /** Two words order the counters while they are less than half the range apart. */
  lemma WordsCompare(a: nat, b: nat)
    requires a <= b < a + WORD
    ensures CircularLessThan(Word(a), Word(b)) <==> 0 < b - a < HALF
  {
    ModOfDifference(a, b);
  }

  /** Counters exactly half the range apart are ordered neither way. */
  lemma NeitherWay(a: nat)
    ensures !CircularLessThan(Word(a), Word(a + HALF)) && !CircularLessThan(Word(a + HALF), Word(a))
  {
    ModOfDifference(a, a + HALF);
    ModOfDifference(a + HALF, a);
  }

  lemma WordAdds(a: nat, b: nat)
    ensures Word(Word(a) + b) == Word(a + b)
  {
    var q, y := a / WORD, a % WORD + b;
    var p, r := y / WORD, y % WORD;
    assert a + b == r + WORD * (q + p);
    MaskMultiple(r, WORD, q + p);
  }

  lemma {:induction false} Pow2Product(a: nat, b: nat)
    ensures Pow2(a) * Pow2(b) == Pow2(a + b)
  {
    if a > 0 { Pow2Product(a - 1, b); }
  }

  lemma {:induction false} Pow2Grows(a: nat, b: nat)
    requires a <= b
    ensures Pow2(a) <= Pow2(b)
  {
    if a < b { Pow2Grows(a, b - 1); }
  }

  lemma Pow2Of59()
    ensures Pow2(59) == BLOCKS_PER_WORD && Pow2(58) == BLOCKS_PER_WORD / 2
  {
    Pow2Of20();
    Pow2Product(20, 20);
    Pow2Product(40, 18);
    Pow2Of18();
    assert Pow2(59) == 2 * Pow2(58);
    hide Pow2;
  }

  lemma Pow2Of10()
    ensures Pow2(10) == 1024
  {
    assert Pow2(4) == 16 && Pow2(7) == 128;
  }

  lemma Pow2Of20()
    ensures Pow2(20) == 1024 * 1024
  {
    Pow2Of10();
    Pow2Product(10, 10);
  }

  lemma Pow2Of18()
    ensures Pow2(18) == 262144
  {
    Pow2Of10();
    assert Pow2(4) == 16 && Pow2(8) == 256;
    Pow2Product(10, 8);
  }

  /** x & (size - 1), for a size that is a power of two. */
  function Masked(x: nat, size: nat): (r: nat)
    requires size > 0
    ensures r < size
  {
    x % size
  }

  lemma MaskMultiple(x: nat, size: nat, q: nat)
    requires x < size
    ensures Masked(x + size * q, size) == x
  {
    var y := x + size * q;
    var q0, r0 := y / size, y % size;
    assert y == size * q0 + r0;
    assert size * (q - q0) == r0 - x;
    if q > q0 {
      MulAtLeast(q - q0, size);
    } else if q < q0 {
      assert size * (q0 - q) == x - r0;
      MulAtLeast(q0 - q, size);
    }
  }

  lemma MulAtLeast(a: nat, n: nat)
    requires a >= 1
    ensures n * a >= n
  {
  }

  // ---------------------------------------------------------------- the structure

  /** The position of the j-th of n index entries that end in front of `front`. */
  function SlotOf(front: nat, size: nat, n: nat, j: nat): (x: nat)
    requires front < size && n <= size && j <= n
    ensures x < size
  {
    var x := front + size - n + j;
    if x >= size then x - size else x
  }

  predicate Shaped<T>(b: Block<T>) { |b.elements| == BLOCK_SIZE && |b.emptyFlags| == BLOCK_SIZE }

  function After(ring: seq<nat>, j: nat): nat
    requires j < |ring|
  {
    if j + 1 < |ring| then ring[j + 1] else ring[0]
  }

  /** The blocks in ring order, oldest first, are linked in a circle. */
  ghost predicate RingOk<T>(blocks: seq<Block<T>>, ring: seq<nat>) {
    && (forall j: nat :: j < |ring| ==> ring[j] < |blocks|)
    && (forall i: nat, j: nat :: i < j < |ring| ==> ring[i] != ring[j])
    && (forall j: nat :: j < |ring| ==> Shaped(blocks[ring[j]]))
    && (forall j: nat :: j < |ring| ==> blocks[ring[j]].next == After(ring, j))
  }

  /** Cell i of block `number` is for index BLOCK_SIZE * number + i: constructed from enqueue to dequeue, its flag set
      by the dequeue. */
  predicate CellOk<T(==)>(b: Block<T>, number: nat, items: seq<T>, head: nat, i: nat)
    requires Shaped(b) && i < BLOCK_SIZE
  {
    var x := BLOCK_SIZE * number + i;
    && b.elements[i] == (if head <= x < |items| then Some(items[x]) else None)
    && b.emptyFlags[BLOCK_SIZE - 1 - i] == (x < head)
  }

  ghost predicate BlockHolds<T>(b: Block<T>, number: nat, items: seq<T>, head: nat)
    requires Shaped(b)
  {
    forall i: nat :: i < BLOCK_SIZE ==> CellOk(b, number, items, head, i)
  }

  ghost predicate DataOk<T>(blocks: seq<Block<T>>, ring: seq<nat>, first: nat, items: seq<T>, head: nat)
    requires RingOk(blocks, ring)
  {
    forall j: nat :: j < |ring| ==> BlockHolds(blocks[ring[j]], first + j, items, head)
  }

  ghost predicate IndexOk(entries: seq<Entry>, front: nat, ring: seq<nat>, first: nat) {
    && front < |entries| && |ring| <= |entries|
    && (forall j: nat :: j < |ring| ==>
          entries[SlotOf(front, |entries|, |ring|, j)] == Entry(Word(BLOCK_SIZE * (first + j)), ring[j]))
  }

  /** Where head and tail may be, with n blocks from number `first` on. */
  predicate Placed(n: nat, first: nat, head: nat, tail: nat) {
    && head <= tail <= BLOCK_SIZE * (first + n) && BLOCK_SIZE * first <= head
    && n <= BLOCKS_PER_WORD / 2
    && (n > 0 ==> BLOCK_SIZE * (first + n - 1) <= tail)
    && (n == 0 ==> first == 0)
  }

  // ---------------------------------------------------------------- how the structure changes

  function Advanced(x: nat, size: nat): (r: nat)
    requires x < size
    ensures r < size
  {
    if x + 1 == size then 0 else x + 1
  }

  lemma AdvancedIsMasked(x: nat, size: nat)
    requires x < size
    ensures Masked(x + 1, size) == Advanced(x, size)
  {
    if x + 1 == size { MaskMultiple(0, size, 1); } else { MaskMultiple(x + 1, size, 0); }
  }

  /** The oldest block becomes the newest: its entry overwrites its old one. */
  lemma IndexReuse(entries: seq<Entry>, front: nat, ring: seq<nat>, first: nat)
    requires IndexOk(entries, front, ring, first) && ring != []
    ensures IndexOk(entries[front := Entry(Word(BLOCK_SIZE * (first + |ring|)), ring[0])], Advanced(front, |entries|),
                    ring[1..] + [ring[0]], first + 1)
  {
    var n, size, front' := |ring|, |entries|, Advanced(front, |entries|);
    var ring' := ring[1..] + [ring[0]];
    var entries' := entries[front := Entry(Word(BLOCK_SIZE * (first + n)), ring[0])];
    forall j: nat | j < n
      ensures entries'[SlotOf(front', size, n, j)] == Entry(Word(BLOCK_SIZE * (first + 1 + j)), ring'[j])
    {
      if j < n - 1 {
        assert SlotOf(front', size, n, j) == SlotOf(front, size, n, j + 1) != front;
      } else {
        assert SlotOf(front', size, n, j) == front;
      }
    }
  }

  /** A new block takes a free entry. */
  lemma IndexInsert(entries: seq<Entry>, front: nat, ring: seq<nat>, first: nat, b: nat)
    requires IndexOk(entries, front, ring, first) && |ring| < |entries|
    ensures IndexOk(entries[front := Entry(Word(BLOCK_SIZE * (first + |ring|)), b)], Advanced(front, |entries|),
                    ring + [b], first)
  {
    var n, size, front' := |ring|, |entries|, Advanced(front, |entries|);
    forall j: nat | j < n + 1 ensures SlotOf(front', size, n + 1, j) == SlotOf(front, size, n, j) {
    }
    assert SlotOf(front, size, n, n) == front;
    assert forall j: nat :: j < n ==> SlotOf(front, size, n, j) != front;
  }

  lemma RingReuse<T>(blocks: seq<Block<T>>, ring: seq<nat>, b: Block<T>)
    requires RingOk(blocks, ring) && ring != [] && Shaped(b)
    requires b.next == blocks[ring[0]].next && b.elements == blocks[ring[0]].elements
    ensures RingOk(blocks[ring[0] := b], ring[1..] + [ring[0]])
  {
    var blocks', ring', last := blocks[ring[0] := b], ring[1..] + [ring[0]], |ring| - 1;
    forall j: nat | j < last ensures ring'[j] == ring[j + 1] && blocks'[ring'[j]] == blocks[ring[j + 1]] {}
    forall j: nat | j < |ring'| ensures blocks'[ring'[j]].next == After(ring', j) {
      assert blocks[ring[if j < last then j + 1 else 0]].next == After(ring, if j < last then j + 1 else 0);
    }
  }

  /** Insertion behind the tail block. */
  lemma RingInsert<T>(blocks: seq<Block<T>>, ring: seq<nat>, b: Block<T>)
    requires RingOk(blocks, ring) && ring != [] && Shaped(b)
    requires b.next == blocks[ring[|ring| - 1]].next
    ensures var tail := ring[|ring| - 1];
            RingOk(blocks[tail := blocks[tail].(next := |blocks|)] + [b], ring + [|blocks|])
  {
    var n, tail := |ring|, ring[|ring| - 1];
    var blocks' := blocks[tail := blocks[tail].(next := |blocks|)] + [b];
    var ring' := ring + [|blocks|];
    forall j: nat | j < n + 1 ensures blocks'[ring'[j]].next == After(ring', j) {
      if j < n { assert blocks[ring[j]].next == After(ring, j); }
    }
  }

  /** A block all of whose flags are set has been dequeued completely. */
  lemma EmptyMeansDequeued<T>(b: Block<T>, number: nat, items: seq<T>, head: nat)
    requires Shaped(b) && BlockHolds(b, number, items, head)
    ensures (forall i: nat :: i < BLOCK_SIZE ==> b.emptyFlags[i]) <==> BLOCK_SIZE * (number + 1) <= head
  {
    assert CellOk(b, number, items, head, 31);
    if i: nat :| i < BLOCK_SIZE && !b.emptyFlags[i] {
      assert CellOk(b, number, items, head, BLOCK_SIZE - 1 - i);
    }
    if BLOCK_SIZE * (number + 1) <= head {
      forall i: nat | i < BLOCK_SIZE ensures b.emptyFlags[i] {
        assert CellOk(b, number, items, head, BLOCK_SIZE - 1 - i);
      }
    }
  }

  /** A block with nothing in it and no flag set is ready to be the next. */
  lemma ReadyHolds<T>(b: Block<T>, number: nat, items: seq<T>, head: nat)
    requires Shaped(b) && forall i: nat :: i < BLOCK_SIZE ==> b.elements[i] == None && !b.emptyFlags[i]
    requires head <= |items| <= BLOCK_SIZE * number
    ensures BlockHolds(b, number, items, head)
  {
  }

  /** A block that has been dequeued completely is ready for another number once its flags are reset. */
  lemma DequeuedIsReady<T>(b: Block<T>, number: nat, items: seq<T>, head: nat)
    requires Shaped(b) && BlockHolds(b, number, items, head) && BLOCK_SIZE * (number + 1) <= head
    ensures forall i: nat :: i < BLOCK_SIZE ==> b.elements[i] == None
  {
    forall i: nat | i < BLOCK_SIZE ensures b.elements[i] == None {
      assert CellOk(b, number, items, head, i);
    }
  }

  lemma DataReuse<T>(blocks: seq<Block<T>>, ring: seq<nat>, first: nat, items: seq<T>, head: nat, b: Block<T>)
    requires RingOk(blocks, ring) && ring != [] && DataOk(blocks, ring, first, items, head)
    requires BLOCK_SIZE * (first + 1) <= head <= |items| == BLOCK_SIZE * (first + |ring|)
    requires b == blocks[ring[0]].(emptyFlags := b.emptyFlags) && b.emptyFlags == seq(BLOCK_SIZE, _ => false)
    ensures RingOk(blocks[ring[0] := b], ring[1..] + [ring[0]])
    ensures DataOk(blocks[ring[0] := b], ring[1..] + [ring[0]], first + 1, items, head)
  {
    RingReuse(blocks, ring, b);
    var ring' := ring[1..] + [ring[0]];
    assert BlockHolds(blocks[ring[0]], first + 0, items, head);
    DequeuedIsReady(blocks[ring[0]], first, items, head);
    ReadyHolds(b, first + |ring|, items, head);
    forall j: nat | j < |ring'| ensures BlockHolds(blocks[ring[0] := b][ring'[j]], first + 1 + j, items, head) {
      if j < |ring| - 1 { assert BlockHolds(blocks[ring[j + 1]], first + (j + 1), items, head); }
    }
  }

  lemma SameCells<T>(b: Block<T>, b': Block<T>, number: nat, items: seq<T>, head: nat)
    requires Shaped(b) && BlockHolds(b, number, items, head) && b' == b.(next := b'.next)
    ensures Shaped(b') && BlockHolds(b', number, items, head)
  {
    forall i: nat | i < BLOCK_SIZE ensures CellOk(b', number, items, head, i) {
      assert CellOk(b, number, items, head, i);
    }
  }

  lemma RingBlock<T>(blocks: seq<Block<T>>, ring: seq<nat>, first: nat, items: seq<T>, head: nat, j: nat)
    requires RingOk(blocks, ring) && DataOk(blocks, ring, first, items, head) && j < |ring|
    ensures ring[j] < |blocks| && ring[|ring| - 1] < |blocks|
    ensures Shaped(blocks[ring[j]]) && BlockHolds(blocks[ring[j]], first + j, items, head)
  {
    hide BlockHolds;
  }

  /** An old block of which at most the link has changed. */
  lemma OldBlocksHold<T>(blocks: seq<Block<T>>, ring: seq<nat>, first: nat, items: seq<T>, head: nat, b: Block<T>,
                         j: nat)
    requires RingOk(blocks, ring) && DataOk(blocks, ring, first, items, head) && j < |ring|
    requires b == blocks[ring[j]].(next := b.next)
    ensures Shaped(b) && BlockHolds(b, first + j, items, head)
  {
    RingBlock(blocks, ring, first, items, head, j);
    hide RingOk, DataOk, Shaped, BlockHolds;
    SameCells(blocks[ring[j]], b, first + j, items, head);
  }

  lemma DataInsert<T>(blocks: seq<Block<T>>, ring: seq<nat>, first: nat, items: seq<T>, head: nat, b: Block<T>)
    requires RingOk(blocks, ring) && ring != [] && DataOk(blocks, ring, first, items, head)
    requires head <= |items| == BLOCK_SIZE * (first + |ring|)
    requires b.elements == seq(BLOCK_SIZE, _ => None) && b.emptyFlags == seq(BLOCK_SIZE, _ => false)
    requires b.next == blocks[ring[|ring| - 1]].next
    ensures var tail := ring[|ring| - 1];
            var blocks' := blocks[tail := blocks[tail].(next := |blocks|)] + [b];
            RingOk(blocks', ring + [|blocks|]) && DataOk(blocks', ring + [|blocks|], first, items, head)
  {
    var tail := ring[|ring| - 1];
    var blocks' := blocks[tail := blocks[tail].(next := |blocks|)] + [b];
    var ring' := ring + [|blocks|];
    RingInsert(blocks, ring, b);
    ReadyHolds(b, first + |ring|, items, head);
    forall j: nat | j < |ring| ensures BlockHolds(blocks'[ring[j]], first + j, items, head) {
      OldBlocksHold(blocks, ring, first, items, head, blocks'[ring[j]], j);
    }
    hide BlockHolds;
    InsertedHolds(blocks', ring, |blocks|, first, items, head);
  }

  lemma InsertedHolds<T>(blocks: seq<Block<T>>, ring: seq<nat>, b: nat, first: nat, items: seq<T>, head: nat)
    requires RingOk(blocks, ring + [b])
    requires forall j: nat :: j < |ring| ==>
               ring[j] < |blocks| && Shaped(blocks[ring[j]]) && BlockHolds(blocks[ring[j]], first + j, items, head)
    requires b < |blocks| && Shaped(blocks[b]) && BlockHolds(blocks[b], first + |ring|, items, head)
    ensures DataOk(blocks, ring + [b], first, items, head)
  {
  }

  lemma RingUpdate<T>(blocks: seq<Block<T>>, ring: seq<nat>, j: nat, b: Block<T>)
    requires RingOk(blocks, ring) && j < |ring| && Shaped(b) && b.next == blocks[ring[j]].next
    ensures RingOk(blocks[ring[j] := b], ring)
  {
  }

  /** One block changes. */
  lemma DataUpdate<T>(blocks: seq<Block<T>>, ring: seq<nat>, first: nat, items: seq<T>, head: nat, j: nat, b: Block<T>)
    requires RingOk(blocks, ring) && j < |ring| && Shaped(b) && b.next == blocks[ring[j]].next
    requires BlockHolds(b, first + j, items, head)
    requires forall k: nat :: k < |ring| && k != j ==> BlockHolds(blocks[ring[k]], first + k, items, head)
    ensures RingOk(blocks[ring[j] := b], ring) && DataOk(blocks[ring[j] := b], ring, first, items, head)
  {
    hide BlockHolds;
    RingUpdate(blocks, ring, j, b);
  }

  function Stored<T>(b: Block<T>, i: nat, x: T): Block<T>
    requires Shaped(b) && i < BLOCK_SIZE
  {
    b.(elements := b.elements[i := Some(x)])
  }

  /** The element is moved out, destroyed and its flag set. */
  function Emptied<T>(b: Block<T>, i: nat): Block<T>
    requires Shaped(b) && i < BLOCK_SIZE
  {
    b.(elements := b.elements[i := None], emptyFlags := b.emptyFlags[BLOCK_SIZE - 1 - i := true])
  }

  /** The element at the tail. */
  lemma DataEnqueue<T>(blocks: seq<Block<T>>, ring: seq<nat>, first: nat, items: seq<T>, head: nat, x: T, i: nat)
    requires RingOk(blocks, ring) && ring != [] && DataOk(blocks, ring, first, items, head) && head <= |items|
    requires i < BLOCK_SIZE && |items| == BLOCK_SIZE * (first + (|ring| - 1)) + i
    ensures var tail := ring[|ring| - 1];
            var blocks' := blocks[tail := Stored(blocks[tail], i, x)];
            blocks[tail].elements[i] == None
            && RingOk(blocks', ring) && DataOk(blocks', ring, first, items + [x], head)
  {
    var n, tail := |ring|, ring[|ring| - 1];
    assert BlockHolds(blocks[tail], first + (n - 1), items, head);
    NewerLeaveOlder(blocks, ring, first, items, head, x);
    hide RingOk, DataOk;
    assert CellOk(blocks[tail], first + (n - 1), items, head, i);
    StoredHolds(blocks[tail], first + (n - 1), items, head, x, i);
    hide BlockHolds, CellOk;
    DataUpdate(blocks, ring, first, items + [x], head, n - 1, Stored(blocks[tail], i, x));
  }

  lemma NewerLeaveOlder<T>(blocks: seq<Block<T>>, ring: seq<nat>, first: nat, items: seq<T>, head: nat, x: T)
    requires RingOk(blocks, ring) && ring != [] && DataOk(blocks, ring, first, items, head)
    requires BLOCK_SIZE * (first + (|ring| - 1)) <= |items|
    ensures forall j: nat :: j < |ring| - 1 ==> BlockHolds(blocks[ring[j]], first + j, items + [x], head)
  {
    hide BlockHolds;
    forall j: nat | j < |ring| - 1 ensures BlockHolds(blocks[ring[j]], first + j, items + [x], head) {
      OlderHolds(blocks[ring[j]], first + j, items, head, x);
    }
  }

  lemma StoredHolds<T>(b: Block<T>, number: nat, items: seq<T>, head: nat, x: T, i: nat)
    requires Shaped(b) && BlockHolds(b, number, items, head) && head <= |items| == BLOCK_SIZE * number + i
             && i < BLOCK_SIZE
    ensures BlockHolds(Stored(b, i, x), number, items + [x], head)
  {
    forall k: nat | k < BLOCK_SIZE ensures CellOk(Stored(b, i, x), number, items + [x], head, k) {
      assert CellOk(b, number, items, head, k);
    }
  }

  lemma OlderHolds<T>(b: Block<T>, number: nat, items: seq<T>, head: nat, x: T)
    requires Shaped(b) && BlockHolds(b, number, items, head) && BLOCK_SIZE * (number + 1) <= |items|
    ensures BlockHolds(b, number, items + [x], head)
  {
    forall k: nat | k < BLOCK_SIZE ensures CellOk(b, number, items + [x], head, k) {
      assert CellOk(b, number, items, head, k);
    }
  }

  /** The element at the head. */
  lemma DataDequeue<T>(blocks: seq<Block<T>>, ring: seq<nat>, first: nat, items: seq<T>, head: nat, j: nat, i: nat)
    requires RingOk(blocks, ring) && j < |ring| && DataOk(blocks, ring, first, items, head)
    requires head < |items| && i < BLOCK_SIZE && head == BLOCK_SIZE * (first + j) + i
    ensures var blocks' := blocks[ring[j] := Emptied(blocks[ring[j]], i)];
            blocks[ring[j]].elements[i] == Some(items[head])
            && RingOk(blocks', ring) && DataOk(blocks', ring, first, items, head + 1)
  {
    assert BlockHolds(blocks[ring[j]], first + j, items, head);
    OtherBlocksHold(blocks, ring, first, items, head, j);
    hide RingOk, DataOk;
    assert CellOk(blocks[ring[j]], first + j, items, head, i);
    EmptiedHolds(blocks[ring[j]], first + j, items, head, i);
    hide BlockHolds, CellOk;
    DataUpdate(blocks, ring, first, items, head + 1, j, Emptied(blocks[ring[j]], i));
  }

  lemma OtherBlocksHold<T>(blocks: seq<Block<T>>, ring: seq<nat>, first: nat, items: seq<T>, head: nat, j: nat)
    requires RingOk(blocks, ring) && j < |ring| && DataOk(blocks, ring, first, items, head)
    requires BLOCK_SIZE * (first + j) <= head < BLOCK_SIZE * (first + j + 1)
    ensures forall k: nat :: k < |ring| && k != j ==> BlockHolds(blocks[ring[k]], first + k, items, head + 1)
  {
    hide BlockHolds;
    forall k: nat | k < |ring| && k != j ensures BlockHolds(blocks[ring[k]], first + k, items, head + 1) {
      OthersHold(blocks[ring[k]], first + k, items, head);
    }
  }

  lemma EmptiedHolds<T>(b: Block<T>, number: nat, items: seq<T>, head: nat, i: nat)
    requires Shaped(b) && BlockHolds(b, number, items, head) && head == BLOCK_SIZE * number + i && i < BLOCK_SIZE
    ensures BlockHolds(Emptied(b, i), number, items, head + 1)
  {
    var next, b' := head + 1, Emptied(b, i);
    forall k: nat | k < BLOCK_SIZE ensures CellOk(b', number, items, next, k) {
      assert CellOk(b, number, items, head, k);
    }
  }

  lemma OthersHold<T>(b: Block<T>, number: nat, items: seq<T>, head: nat)
    requires Shaped(b) && BlockHolds(b, number, items, head)
    requires head < BLOCK_SIZE * number || BLOCK_SIZE * (number + 1) <= head
    ensures BlockHolds(b, number, items, head + 1)
  {
    var next := head + 1;
    forall k: nat | k < BLOCK_SIZE ensures CellOk(b, number, items, next, k) {
      assert CellOk(b, number, items, head, k);
    }
  }

  // ---------------------------------------------------------------- the index lookup

  /** (front + offset) & (size - 1), where the difference of two bases was taken modulo 2^64 and then divided as
      an unsigned number, is the entry k places in front of the newest. */
  lemma LookupFinds(size: nat, e: nat, front: nat, n: nat, j: nat, first: nat, index: nat)
    requires size == Pow2(e) && e <= 59 && front < size && j < n <= size && n <= BLOCKS_PER_WORD
    requires BLOCK_SIZE * (first + j) <= index < BLOCK_SIZE * (first + j + 1)
    ensures var local := if front == 0 then size - 1 else front - 1;
            var blockBase := Word(index) - Word(index) % BLOCK_SIZE;
            var offset := (blockBase - Word(BLOCK_SIZE * (first + n - 1))) % WORD / BLOCK_SIZE;
            Masked(local + offset, size) == SlotOf(front, size, n, j)
  {
    hide Word, Masked;
    var local := if front == 0 then size - 1 else front - 1;
    var k := n - 1 - j;
    OffsetIs(first + j, k, index);
    Pow2Product(e, 59 - e);
    Pow2Of59();
    hide Pow2;
    if k == 0 {
      MaskMultiple(local, size, 0);
    } else {
      MaskBack(size, Pow2(59 - e), local, k);
    }
  }

  /** Going back k places by adding a multiple of the size less k. */
  lemma MaskBack(size: nat, q: nat, local: nat, k: nat)
    requires size * q == BLOCKS_PER_WORD && local < size && 0 < k <= size
    ensures Masked(local + (BLOCKS_PER_WORD - k), size) == if local >= k then local - k else local - k + size
  {
    if local >= k {
      MaskMultiple(local - k, size, q);
    } else {
      assert q > 0;
      assert size * q == size * (q - 1) + size;
      MaskMultiple(local - k + size, size, q - 1);
    }
  }

  lemma WordOf(number: nat, r: nat)
    requires r < BLOCK_SIZE
    ensures Word(BLOCK_SIZE * number + r) == BLOCK_SIZE * (number % BLOCKS_PER_WORD) + r
  {
    var q, a := number / BLOCKS_PER_WORD, BLOCK_SIZE * (number % BLOCKS_PER_WORD) + r;
    assert number == BLOCKS_PER_WORD * q + number % BLOCKS_PER_WORD;
    MaskMultiple(a, WORD, q);
  }

  lemma OffsetIs(number: nat, k: nat, index: nat)
    requires BLOCK_SIZE * number <= index < BLOCK_SIZE * (number + 1) && k < BLOCKS_PER_WORD
    ensures ((Word(index) - Word(index) % BLOCK_SIZE) - Word(BLOCK_SIZE * (number + k))) % WORD / BLOCK_SIZE ==
            if k == 0 then 0 else BLOCKS_PER_WORD - k
  {
    WordOf(number, index - BLOCK_SIZE * number);
    WordOf(number + k, 0);
    hide Word;
    var a := number % BLOCKS_PER_WORD;
    var b := (number + k) % BLOCKS_PER_WORD;
    assert b == if a + k < BLOCKS_PER_WORD then a + k else a + k - BLOCKS_PER_WORD;
    assert Word(index) - Word(index) % BLOCK_SIZE == BLOCK_SIZE * a;
  }

  // ---------------------------------------------------------------- the producer's view

  /** The newest entry is the published one. */
  predicate Published(n: nat, front: nat, published: nat, size: nat) {
    n > 0 ==> published == (if front == 0 then size - 1 else front - 1)
  }

  ghost predicate Sound<T>(blocks: seq<Block<T>>, entries: seq<Entry>, front: nat, ring: seq<nat>, first: nat,
                           items: seq<T>, head: nat)
  {
    RingOk(blocks, ring) && IndexOk(entries, front, ring, first) && DataOk(blocks, ring, first, items, head)
    && Placed(|ring|, first, head, |items|)
  }

  function ResetBlock<T>(b: Block<T>): Block<T> { b.(emptyFlags := seq(BLOCK_SIZE, _ => false)) }

  /** Reusing the oldest block. */
  lemma ReuseSound<T>(blocks: seq<Block<T>>, entries: seq<Entry>, front: nat, ring: seq<nat>, first: nat,
                      items: seq<T>, head: nat)
    requires Sound(blocks, entries, front, ring, first, items, head) && ring != []
    requires |items| == BLOCK_SIZE * (first + |ring|) && BLOCK_SIZE * (first + 1) <= head
    ensures Sound(blocks[ring[0] := ResetBlock(blocks[ring[0]])], entries[front := Entry(Word(|items|), ring[0])],
                  Advanced(front, |entries|), ring[1..] + [ring[0]], first + 1, items, head)
  {
    DataReuse(blocks, ring, first, items, head, ResetBlock(blocks[ring[0]]));
    IndexReuse(entries, front, ring, first);
    hide RingOk, IndexOk, DataOk, Word;
  }

  /** The ring after the tail block leads back to the oldest block. */
  lemma RingCloses<T>(blocks: seq<Block<T>>, ring: seq<nat>)
    requires RingOk(blocks, ring) && ring != []
    ensures ring[|ring| - 1] < |blocks| && ring[0] < |blocks| && Shaped(blocks[ring[0]])
    ensures blocks[ring[|ring| - 1]].next == ring[0]
  {
    assert blocks[ring[|ring| - 1]].next == After(ring, |ring| - 1);
  }

  function FreshBlock<T>(next: nat): Block<T> {
    Block(seq(BLOCK_SIZE, _ => None), seq(BLOCK_SIZE, _ => false), next)
  }

  /** The blocks after a new one is linked in behind the tail block. */
  function Linked<T>(blocks: seq<Block<T>>, ring: seq<nat>): seq<Block<T>>
    requires forall j: nat :: j < |ring| ==> ring[j] < |blocks|
  {
    if ring == [] then blocks + [FreshBlock(|blocks|)] else
    var tail := ring[|ring| - 1];
    blocks[tail := blocks[tail].(next := |blocks|)] + [FreshBlock(blocks[tail].next)]
  }

  /** Inserting a new block. */
  lemma InsertSound<T>(blocks: seq<Block<T>>, entries: seq<Entry>, front: nat, ring: seq<nat>, first: nat,
                       items: seq<T>, head: nat)
    requires Sound(blocks, entries, front, ring, first, items, head) && |ring| < |entries|
    requires |items| == BLOCK_SIZE * (first + |ring|) && |ring| < BLOCKS_PER_WORD / 2
    ensures Sound(Linked(blocks, ring), entries[front := Entry(Word(|items|), |blocks|)],
                  Advanced(front, |entries|), ring + [|blocks|], first, items, head)
  {
    IndexInsert(entries, front, ring, first, |blocks|);
    if ring == [] {
      FirstBlock(blocks, items, head);
    } else {
      DataInsert(blocks, ring, first, items, head, FreshBlock(blocks[ring[|ring| - 1]].next));
    }
    hide RingOk, IndexOk, DataOk, Word;
  }

  lemma FirstBlock<T>(blocks: seq<Block<T>>, items: seq<T>, head: nat)
    requires items == [] && head == 0
    ensures var blocks' := blocks + [FreshBlock(|blocks|)];
            RingOk(blocks', [|blocks|]) && DataOk(blocks', [|blocks|], 0, items, head)
  {
    ReadyHolds(FreshBlock<T>(|blocks|), 0, items, head);
  }

  /** When the block ahead is not empty and there is leeway, the ring is far from its largest size. */
  lemma RoomToGrow(n: nat, first: nat, head: nat, tail: nat)
    requires Placed(n, first, head, tail) && tail == BLOCK_SIZE * (first + n)
             && (n > 0 ==> head < BLOCK_SIZE * (first + 1))
    requires tail + BLOCK_SIZE - head < HALF
    ensures n < BLOCKS_PER_WORD / 2
  {
  }

  // ---------------------------------------------------------------- the class

  class ExplicitProducer<T(==)> {
    var tailIndex: nat
    var headIndex: nat
    var dequeueOptimisticCount: nat
    var dequeueOvercommit: nat
    var tailBlock: Option<nat>
    var blocks: seq<Block<T>>
    var entries: seq<Entry>           // pr_blockIndexEntries; its length is pr_blockIndexSize
    var slotsUsed: nat                // pr_blockIndexSlotsUsed
    var front: nat                    // pr_blockIndexFront, the next slot
    var published: nat                // blockIndex->front, the current slot

    ghost var items: seq<T>           // everything ever enqueued
    ghost var head: nat               // headIndex without wrap-around
    ghost var ring: seq<nat>          // the blocks in ring order, oldest first
    ghost var first: nat              // the number of the oldest block
    ghost var exponent: nat

    /** The words, the ring and the index. */
    ghost predicate Structured()
      reads this
    {
      && tailIndex == Word(|items|) && headIndex == Word(head)
      && dequeueOptimisticCount == Word(head) && dequeueOvercommit == 0
      && Sound(blocks, entries, front, ring, first, items, head)
      && |entries| == Pow2(exponent) && exponent <= 59
      && slotsUsed == |ring|
      && tailBlock == (if ring == [] then None else Some(ring[|ring| - 1]))
      && Published(|ring|, front, published, |entries|)
    }

    ghost predicate Valid()
      reads this
    {
      Structured() && (ring != [] ==> BLOCK_SIZE * (first + |ring| - 1) < |items|)
    }

    /** The queue. */
    ghost function Contents(): seq<T>
      requires Valid()
      reads this
    {
      items[head..]
    }

    /** An index with a size that is a power of two: EXPLICIT_INITIAL_INDEX_SIZE or what the block pool asks for. */
    constructor (size: nat, ghost e: nat)
      requires size == Pow2(e) && e <= 58
      ensures Valid() && Contents() == []
    {
      tailIndex, headIndex, dequeueOptimisticCount, dequeueOvercommit := 0, 0, 0, 0;
      tailBlock, blocks := None, [];
      entries := seq(size, _ => Entry(0, 0));
      slotsUsed, front, published := 0, 0, 0;
      items, head, ring, first, exponent := [], 0, [], 0, e;
    }

    /** The old entries in use, oldest first; the loop ends when it comes around to the front. */
    method CopyEntries(newSize: nat) returns (newEntries: seq<Entry>, j: nat)
      requires front < |entries| && slotsUsed <= |entries| <= newSize
      ensures |newEntries| == newSize && j == slotsUsed
      ensures forall x: nat :: x < j ==> newEntries[x] == entries[SlotOf(front, |entries|, slotsUsed, x)]
    {
      var size := |entries|;
      newEntries := seq(newSize, _ => Entry(0, 0));
      j := 0;
      if slotsUsed != 0 {
        OneLap(front, size, slotsUsed);
        var i := Masked(front + size - slotsUsed, size);
        var more := true;
        while more
          invariant j <= slotsUsed && |newEntries| == newSize && (more <==> j < slotsUsed)
          invariant i == SlotOf(front, size, slotsUsed, j)
          invariant forall x: nat :: x < j ==> newEntries[x] == entries[SlotOf(front, size, slotsUsed, x)]
          decreases slotsUsed - j
        {
          newEntries := newEntries[j := entries[i]];
          AdvancedIsMasked(i, size);
          i := Masked(i + 1, size);
          j := j + 1;
          more := i != front;
        }
      }
    }

    /** new_block_index: the entries in use move to an index of twice the size. */
    method NewBlockIndex()
      requires Structured() && slotsUsed == |entries| && exponent < 59
      modifies this`entries, this`front, this`published, this`exponent
      ensures Structured() && |entries| == 2 * old(|entries|) && exponent == old(exponent) + 1
    {
      hide RingOk, DataOk, Placed, Word;
      var newEntries, j := CopyEntries(2 * |entries|);
      IndexMoves(entries, newEntries, front, ring, first);
      hide IndexOk;
      entries := newEntries;
      front := j;
      published := slotsUsed - 1;
      exponent := exponent + 1;
    }

    method IsEmpty(b: nat) returns (empty: bool)
      requires b < |blocks| && Shaped(blocks[b])
      ensures empty <==> forall i: nat :: i < BLOCK_SIZE ==> blocks[b].emptyFlags[i]
    {
      var i := 0;
      while i < BLOCK_SIZE
        invariant i <= BLOCK_SIZE && forall x: nat :: x < i ==> blocks[b].emptyFlags[x]
      {
        if !blocks[b].emptyFlags[i] { return false; }
        i := i + 1;
      }
      empty := true;
    }

    /** Adds the tail block, which starts at the tail index, to the block index. */
    method AddToIndex(b: nat)
      requires front < |entries|
      modifies this`entries, this`front, this`published
      ensures entries == old(entries)[old(front) := Entry(tailIndex, b)]
      ensures published == old(front) && front == Advanced(old(front), |entries|)
    {
      entries := entries[front := Entry(tailIndex, b)];
      published := front;
      AdvancedIsMasked(front, |entries|);
      front := Masked(front + 1, |entries|);
    }

    /** The block ahead of the tail block is empty and becomes the tail block. */
    method ReuseBlock()
      requires Structured() && ring != [] && |items| == BLOCK_SIZE * (first + |ring|)
               && BLOCK_SIZE * (first + 1) <= head
      modifies this
      ensures Structured() && ring != [] && |items| == BLOCK_SIZE * (first + (|ring| - 1))
      ensures items == old(items) && head == old(head) && |blocks| == old(|blocks|) && |entries| == old(|entries|)
    {
      hide Sound, Word, Pow2, ResetBlock;
      SoundRing(blocks, entries, front, ring, first, items, head);
      ReuseSound(blocks, entries, front, ring, first, items, head);
      var next := blocks[tailBlock.value].next;
      tailBlock := Some(next);
      blocks := blocks[next := ResetBlock(blocks[next])];
      AddToIndex(next);
      ring, first := ring[1..] + [ring[0]], first + 1;
      PublishedFront(|ring|, published, front, |entries|);
      hide Published, Advanced;
    }

    /** A new block is linked in behind the tail block. */
    method LinkBlock() returns (newBlock: nat)
      requires (forall j: nat :: j < |ring| ==> ring[j] < |blocks|)
      requires tailBlock == (if ring == [] then None else Some(ring[|ring| - 1]))
      modifies this`blocks, this`tailBlock
      ensures newBlock == |old(blocks)| && blocks == Linked(old(blocks), ring) && tailBlock == Some(newBlock)
      ensures |blocks| == |old(blocks)| + 1
    {
      newBlock := |blocks|;
      if tailBlock == None {
        blocks := blocks + [FreshBlock(newBlock)];
      } else {
        var tail := tailBlock.value;
        var b := FreshBlock(blocks[tail].next);
        blocks := blocks[tail := blocks[tail].(next := newBlock)] + [b];
      }
      tailBlock := Some(newBlock);
    }

    method InsertBlock()
      requires Structured() && |items| == BLOCK_SIZE * (first + |ring|) && slotsUsed < |entries|
               && |ring| < BLOCKS_PER_WORD / 2
      modifies this
      ensures Structured() && ring != [] && |items| == BLOCK_SIZE * (first + (|ring| - 1))
      ensures items == old(items) && head == old(head)
      ensures |blocks| == old(|blocks|) + 1 && |entries| == old(|entries|)
    {
      hide Sound, Word, Pow2, Linked;
      SoundFront(blocks, entries, front, ring, first, items, head);
      InsertSound(blocks, entries, front, ring, first, items, head);
      var newBlock := LinkBlock();
      slotsUsed := slotsUsed + 1;
      AddToIndex(newBlock);
      ring := ring + [newBlock];
      PublishedFront(|ring|, published, front, |entries|);
      hide Published, Advanced;
    }

    /** The block ahead of the tail block has been dequeued completely. */
    ghost predicate OldestIsEmpty()
      reads this
    {
      ring != [] && BLOCK_SIZE * (first + 1) <= head
    }

    /** A block begins, and the block ahead still holds elements. */
    ghost predicate NeedsBlock()
      reads this
    {
      tailIndex % BLOCK_SIZE == 0 && !OldestIsEmpty()
    }

    /** No entry of the block index is free. */
    ghost predicate IndexIsFull()
      reads this
    {
      slotsUsed == |entries|
    }

    /** A new block is needed, and with it the tail could pass the head. */
    ghost predicate Refuses()
      requires Valid()
      reads this
    {
      NeedsBlock() && |Contents()| + BLOCK_SIZE >= HALF
    }

    /** At the end of a block: a new tail block, reused or inserted; refused when the tail could pass the head. */
    method StartBlock() returns (ok: bool)
      requires Valid() && |items| == BLOCK_SIZE * (first + |ring|)
      modifies this
      ensures items == old(items) && head == old(head)
      ensures ok <==> old(OldestIsEmpty()) || |items| - head + BLOCK_SIZE < HALF
      ensures |blocks| == old(|blocks|) + if ok && !old(OldestIsEmpty()) then 1 else 0
      ensures |entries| == old(|entries|) * if ok && !old(OldestIsEmpty()) && old(IndexIsFull()) then 2 else 1
      ensures if ok then Structured() && ring != [] && |items| == BLOCK_SIZE * (first + (|ring| - 1)) else Valid()
    {
      hide Sound, Word, Pow2, CircularLessThan;
      SoundPlaced(blocks, entries, front, ring, first, items, head);
      SoundFront(blocks, entries, front, ring, first, items, head);
      var empty := false;
      if tailBlock != None {
        SoundRing(blocks, entries, front, ring, first, items, head);
        SoundOldest(blocks, entries, front, ring, first, items, head);
        var next := blocks[tailBlock.value].next;
        empty := IsEmpty(next);
      }
      if empty {
        ReuseBlock();
        return true;
      }
      WordsCompare(head, |items| + BLOCK_SIZE);
      WordAdds(|items|, BLOCK_SIZE);
      if !CircularLessThan(headIndex, Word(tailIndex + BLOCK_SIZE)) {
        return false;
      }
      RoomToGrow(|ring|, first, head, |items|);
      if slotsUsed == |entries| {
        ExponentBound(exponent, |ring|);
        NewBlockIndex();
      }
      InsertBlock();
      ok := true;
    }

    /** The element is constructed in its slot of the tail block and the tail index published. */
    method StoreAtTail(x: T)
      requires Structured() && ring != [] && |items| < BLOCK_SIZE * (first + |ring|)
      modifies this`blocks, this`tailIndex, this`items
      ensures Valid() && items == old(items) + [x] && |blocks| == old(|blocks|)
    {
      hide Sound, Word, Pow2, Stored;
      WordAdds(|items|, 1);
      var tail, i := tailBlock.value, tailIndex % BLOCK_SIZE;
      TailSlot(blocks, entries, front, ring, first, items, head, i);
      EnqueueSound(blocks, entries, front, ring, first, items, head, x, i);
      hide Placed;
      blocks := blocks[tail := Stored(blocks[tail], i, x)];
      tailIndex := Word(1 + tailIndex);
      items := items + [x];
    }

    /** A slot for the tail: there is one, unless a block begins here, which needs a new tail block. */
    method FindSlot() returns (ok: bool)
      requires Valid()
      modifies this
      ensures items == old(items) && head == old(head) && head <= |items|
      ensures ok <==> !old(Refuses())
      ensures |blocks| == old(|blocks|) + if ok && old(NeedsBlock()) then 1 else 0
      ensures |entries| == old(|entries|) * if ok && old(NeedsBlock()) && old(IndexIsFull()) then 2 else 1
      ensures if ok then Structured() && ring != [] && |items| < BLOCK_SIZE * (first + |ring|) else Valid()
    {
      TailBoundary(first, |ring|, |items|);
      SoundPlaced(blocks, entries, front, ring, first, items, head);
      hide Sound, Pow2;
      ok := true;
      if tailIndex % BLOCK_SIZE == 0 {
        hide Published;
        ok := StartBlock();
      }
    }

    method Enqueue(x: T) returns (ok: bool)
      requires Valid()
      modifies this
      ensures Valid()
      ensures ok <==> !old(Refuses())
      ensures |blocks| == old(|blocks|) + if ok && old(NeedsBlock()) then 1 else 0
      ensures |entries| == old(|entries|) * if ok && old(NeedsBlock()) && old(IndexIsFull()) then 2 else 1
      ensures Contents() == if ok then old(Contents()) + [x] else old(Contents())
    {
      hide Structured, Refuses, NeedsBlock;
      ok := FindSlot();
      if ok { StoreAtTail(x); }
    }

    /** The block of an index: back from the published entry by the difference of the bases. */
    method BlockOf(index: nat, ghost j: nat) returns (b: nat)
      requires Structured() && j < |ring| && index == Word(head)
      requires BLOCK_SIZE * (first + j) <= head < BLOCK_SIZE * (first + j + 1)
      ensures b == ring[j]
    {
      hide Sound, Word, Pow2;
      SoundFront(blocks, entries, front, ring, first, items, head);
      SoundPlaced(blocks, entries, front, ring, first, items, head);
      NewestEntry(blocks, entries, front, ring, first, items, head, published, j);
      LookupFinds(|entries|, exponent, front, |ring|, j, first, head);
      var headBase := entries[published].base;
      var blockBaseIndex := index - index % BLOCK_SIZE;
      var offset := (blockBaseIndex - headBase) % WORD / BLOCK_SIZE;
      b := entries[Masked(published + offset, |entries|)].block;
    }

    /** Moves the element at the head out of its block. */
    method TakeAtHead() returns (x: T)
      requires Valid() && head < |items|
      modifies this`blocks, this`headIndex, this`dequeueOptimisticCount, this`head
      ensures Valid() && x == items[old(head)] && head == old(head) + 1 && |blocks| == old(|blocks|)
    {
      hide Sound, Word, Pow2, Emptied;
      SoundFront(blocks, entries, front, ring, first, items, head);
      SoundPlaced(blocks, entries, front, ring, first, items, head);
      ghost var j := head / BLOCK_SIZE - first;
      HeadBlock(|ring|, first, head, |items|);
      WordAdds(head, 1);
      var index := headIndex;
      var b := BlockOf(index, j);
      var i := index % BLOCK_SIZE;
      WordKeepsOffset(head);
      DequeueSound(blocks, entries, front, ring, first, items, head, j, i);
      hide Placed;
      x := blocks[b].elements[i].value;
      blocks := blocks[b := Emptied(blocks[b], i)];
      headIndex := Word(headIndex + 1);
      dequeueOptimisticCount := Word(dequeueOptimisticCount + 1);
      head := head + 1;
    }

    /** dequeue, run alone: both comparisons see the same counters. */
    method Dequeue() returns (r: Option<T>)
      requires Valid()
      modifies this
      ensures Valid()
      ensures r.Some? <==> 0 < |old(Contents())| < HALF
      ensures r.Some? ==> r.value == old(Contents())[0] && Contents() == old(Contents())[1..]
      ensures r.None? ==> Contents() == old(Contents())
      ensures |blocks| == old(|blocks|) && |entries| == old(|entries|)
    {
      hide Sound, Word, Pow2, CircularLessThan;
      SoundPlaced(blocks, entries, front, ring, first, items, head);
      assert head <= |items| && |items| - head <= HALF;
      hide Placed;
      WordsCompare(head, |items|);
      assert (dequeueOptimisticCount - dequeueOvercommit) % WORD == headIndex;
      if CircularLessThan((dequeueOptimisticCount - dequeueOvercommit) % WORD, tailIndex) {
        var x := TakeAtHead();
        assert old(items[head..])[1..] == items[head..];
        r := Some(x);
      } else {
        r := None;
      }
    }
  }

  /** (front - n) & (size - 1). */
  lemma OneLap(front: nat, size: nat, n: nat)
    requires front < size && n <= size
    ensures Masked(front + size - n, size) == SlotOf(front, size, n, 0)
  {
    var x: nat := front + size - n;
    if x >= size { MaskMultiple(x - size, size, 1); } else { MaskMultiple(x, size, 0); }
  }

  /** The entries in use, oldest first, at the start of a bigger index. */
  lemma IndexMoves(entries: seq<Entry>, entries': seq<Entry>, front: nat, ring: seq<nat>, first: nat)
    requires IndexOk(entries, front, ring, first) && |ring| < |entries'|
    requires forall j: nat :: j < |ring| ==> entries'[j] == entries[SlotOf(front, |entries|, |ring|, j)]
    ensures IndexOk(entries', |ring|, ring, first)
  {
    assert forall j: nat :: j < |ring| ==> SlotOf(|ring|, |entries'|, |ring|, j) == j;
  }

  lemma SoundFront<T>(blocks: seq<Block<T>>, entries: seq<Entry>, front: nat, ring: seq<nat>, first: nat,
                      items: seq<T>, head: nat)
    requires Sound(blocks, entries, front, ring, first, items, head)
    ensures front < |entries| && |ring| <= |entries| && forall j: nat :: j < |ring| ==> ring[j] < |blocks|
  {
  }

  lemma SoundRing<T>(blocks: seq<Block<T>>, entries: seq<Entry>, front: nat, ring: seq<nat>, first: nat,
                     items: seq<T>, head: nat)
    requires Sound(blocks, entries, front, ring, first, items, head) && ring != []
    ensures front < |entries| && ring[|ring| - 1] < |blocks| && ring[0] < |blocks|
            && blocks[ring[|ring| - 1]].next == ring[0]
  {
    RingCloses(blocks, ring);
  }

  lemma PublishedFront(n: nat, published: nat, front: nat, size: nat)
    requires published < size && front == Advanced(published, size)
    ensures Published(n, front, published, size)
  {
  }

  lemma SoundPlaced<T>(blocks: seq<Block<T>>, entries: seq<Entry>, front: nat, ring: seq<nat>, first: nat,
                       items: seq<T>, head: nat)
    requires Sound(blocks, entries, front, ring, first, items, head)
    ensures Placed(|ring|, first, head, |items|)
  {
  }

  lemma OldestBlock<T>(blocks: seq<Block<T>>, ring: seq<nat>, first: nat, items: seq<T>, head: nat)
    requires RingOk(blocks, ring) && ring != [] && DataOk(blocks, ring, first, items, head)
    ensures Shaped(blocks[ring[0]])
    ensures (forall i: nat :: i < BLOCK_SIZE ==> blocks[ring[0]].emptyFlags[i]) <==> BLOCK_SIZE * (first + 1) <= head
  {
    assert BlockHolds(blocks[ring[0]], first + 0, items, head);
    EmptyMeansDequeued(blocks[ring[0]], first, items, head);
  }

  lemma SoundOldest<T>(blocks: seq<Block<T>>, entries: seq<Entry>, front: nat, ring: seq<nat>, first: nat,
                       items: seq<T>, head: nat)
    requires Sound(blocks, entries, front, ring, first, items, head) && ring != []
    ensures ring[0] < |blocks| && Shaped(blocks[ring[0]])
    ensures (forall i: nat :: i < BLOCK_SIZE ==> blocks[ring[0]].emptyFlags[i]) <==> BLOCK_SIZE * (first + 1) <= head
  {
    OldestBlock(blocks, ring, first, items, head);
  }

  lemma ExponentBound(e: nat, n: nat)
    requires Pow2(e) == n < BLOCKS_PER_WORD / 2
    ensures e < 58
  {
    Pow2Of59();
    if e >= 58 { Pow2Grows(58, e); }
  }

  /** The tail is at a block boundary exactly when its word is. */
  lemma TailBoundary(first: nat, n: nat, tail: nat)
    requires n > 0 ==> BLOCK_SIZE * (first + n - 1) < tail
    requires tail <= BLOCK_SIZE * (first + n) && (n == 0 ==> first == 0)
    ensures tail % BLOCK_SIZE == 0 <==> tail == BLOCK_SIZE * (first + n)
  {
  }

  lemma TailBlock(first: nat, n: nat, tail: nat, i: nat)
    requires n > 0 && BLOCK_SIZE * (first + (n - 1)) <= tail < BLOCK_SIZE * (first + n) && i == tail % BLOCK_SIZE
    ensures tail == BLOCK_SIZE * (first + (n - 1)) + i
  {
  }

  /** The slot of the tail in the tail block. */
  lemma TailSlot<T>(blocks: seq<Block<T>>, entries: seq<Entry>, front: nat, ring: seq<nat>, first: nat, items: seq<T>,
                    head: nat, i: nat)
    requires Sound(blocks, entries, front, ring, first, items, head) && ring != []
    requires |items| < BLOCK_SIZE * (first + |ring|) && i == Word(|items|) % BLOCK_SIZE
    ensures |items| == BLOCK_SIZE * (first + (|ring| - 1)) + i
  {
    hide RingOk, DataOk, IndexOk;
    TailBlock(first, |ring|, |items|, i);
  }

  lemma EnqueueSound<T>(blocks: seq<Block<T>>, entries: seq<Entry>, front: nat, ring: seq<nat>, first: nat,
                        items: seq<T>, head: nat, x: T, i: nat)
    requires Sound(blocks, entries, front, ring, first, items, head) && ring != []
    requires i < BLOCK_SIZE && |items| == BLOCK_SIZE * (first + (|ring| - 1)) + i
    ensures var tail := ring[|ring| - 1];
            tail < |blocks| && Shaped(blocks[tail]) && blocks[tail].elements[i] == None
            && Sound(blocks[tail := Stored(blocks[tail], i, x)], entries, front, ring, first, items + [x], head)
  {
    DataEnqueue(blocks, ring, first, items, head, x, i);
    hide RingOk, DataOk, IndexOk;
  }

  /** The published entry is the newest block's, and entry j is block j's. */
  lemma NewestEntry<T>(blocks: seq<Block<T>>, entries: seq<Entry>, front: nat, ring: seq<nat>, first: nat,
                       items: seq<T>, head: nat, published: nat, j: nat)
    requires Sound(blocks, entries, front, ring, first, items, head) && j < |ring|
    requires Published(|ring|, front, published, |entries|)
    ensures published < |entries| && entries[published].base == Word(BLOCK_SIZE * (first + |ring| - 1))
    ensures entries[SlotOf(front, |entries|, |ring|, j)].block == ring[j]
  {
    hide RingOk, DataOk, Word;
    assert SlotOf(front, |entries|, |ring|, |ring| - 1) == published;
  }

  lemma HeadBlock(n: nat, first: nat, head: nat, tail: nat)
    requires Placed(n, first, head, tail) && head < tail
    ensures first <= head / BLOCK_SIZE < first + n
    ensures head == BLOCK_SIZE * (head / BLOCK_SIZE) + head % BLOCK_SIZE
  {
  }

  lemma WordKeepsOffset(x: nat)
    ensures Word(x) % BLOCK_SIZE == x % BLOCK_SIZE
  {
  }

  lemma DequeueSound<T>(blocks: seq<Block<T>>, entries: seq<Entry>, front: nat, ring: seq<nat>, first: nat,
                        items: seq<T>, head: nat, j: nat, i: nat)
    requires Sound(blocks, entries, front, ring, first, items, head) && j < |ring| && head < |items|
    requires i < BLOCK_SIZE && head == BLOCK_SIZE * (first + j) + i
    ensures ring[j] < |blocks| && Shaped(blocks[ring[j]]) && blocks[ring[j]].elements[i] == Some(items[head])
    ensures Sound(blocks[ring[j] := Emptied(blocks[ring[j]], i)], entries, front, ring, first, items, head + 1)
  {
    DataDequeue(blocks, ring, first, items, head, j, i);
    hide RingOk, DataOk, IndexOk;
  }

  // ---------------------------------------------------------------- whole runs

  datatype Call<T> = Put(x: T) | Get

  /** A first-in first-out queue, call by call: its contents, and what the gets returned. */
  function Fifo<T>(contents: seq<T>, calls: seq<Call<T>>): (r: (seq<T>, seq<Option<T>>))
    decreases |calls|
  {
    if calls == [] then (contents, []) else
    match calls[0]
    case Put(x) => Fifo(contents + [x], calls[1..])
    case Get =>
      var first := if contents == [] then None else Some(contents[0]);
      var r := Fifo(if contents == [] then [] else contents[1..], calls[1..]);
      (r.0, [first] + r.1)
  }

  /** At every enqueue the queue is more than a block below half the index range long; however many calls there are. */
  predicate RoomFor<T>(contents: seq<T>, calls: seq<Call<T>>)
    decreases |calls|
  {
    calls == [] ||
    match calls[0]
    case Put(x) => |contents| + BLOCK_SIZE < HALF && RoomFor(contents + [x], calls[1..])
    case Get => RoomFor(if contents == [] then [] else contents[1..], calls[1..])
  }

  /** Any sequence of calls on a new producer, of any length and through any wrap-around of the indices, returns what
      a first-in first-out queue returns, as long as that queue never comes near half the index range. */
  method RunCalls<T(==)>(size: nat, ghost e: nat, calls: seq<Call<T>>) returns (results: seq<Option<T>>)
    requires size == Pow2(e) && e <= 58 && RoomFor([], calls)
    ensures results == Fifo([], calls).1
  {
    hide Sound, Pow2, Word, Published;
    var p := new ExplicitProducer<T>(size, e);
    results := [];
    var k := 0;
    assert calls[0..] == calls;
    while k < |calls|
      invariant 0 <= k <= |calls| && p.Valid() && |p.Contents()| < HALF && fresh(p)
      invariant RoomFor(p.Contents(), calls[k..])
      invariant results + Fifo(p.Contents(), calls[k..]).1 == Fifo([], calls).1
    {
      assert calls[k..][0] == calls[k] && calls[k..][1..] == calls[k + 1..];
      match calls[k] {
        case Put(x) =>
          var ok := p.Enqueue(x);
        case Get =>
          var r := p.Dequeue();
          results := results + [r];
      }
      k := k + 1;
    }
  }
}
