/**
  Memory that comes from the stack or from the heap, told apart by one bit of the address
  (gnulib/malloca.c, gnulib/malloca.h).

  The alignment A is a power of two, and pointers from the stack are 0 modulo 2A, pointers
  from the heap are A modulo 2A.  The byte in front of a heap pointer is its distance from
  the start of the block.
 */
module Malloca {
  import opened Bits
  import opened Powers
  import opened Modular

  /** NULL, and the number of values of the byte that holds a distance. */
  const NULL: nat := 0
  const SMALL: nat := 256

  // ------------------------------------------------------- masks and remainders

  lemma Halves(x: nat, k: nat)
    requires k > 0
    ensures x % Pow2(k) == x % 2 + 2 * ((x / 2) % Pow2(k - 1))
    ensures 0 <= (x / 2) % Pow2(k - 1) < Pow2(k - 1)
  {
    ModLow(x % 2, x / 2, 2, Pow2(k - 1));
  }

  /** The k low bits of x. */
  function Low(x: nat, k: nat): nat {
    if k == 0 then 0 else x % 2 + 2 * Low(x / 2, k - 1)
  }

  lemma {:induction false} LowIsRemainder(x: nat, k: nat)
    ensures Low(x, k) == x % Pow2(k)
    decreases k
  {
    if k > 0 {
      LowIsRemainder(x / 2, k - 1);
      Halves(x, k);
    }
  }

  lemma MaskHalf(k: nat, m: nat)
    requires k > 0 && m == Pow2(k) - 1
    ensures m > 0 && m % 2 == 1 && m / 2 == Pow2(k - 1) - 1
  {}

  lemma {:induction false} LowOfZero(k: nat)
    ensures Low(0, k) == 0
  {
    if k > 0 { LowOfZero(k - 1); }
  }

  /** x & (2^k - 1) is the remainder modulo 2^k, */
  lemma {:induction false} AndLowMask(x: nat, k: nat, m: nat)
    requires m == Pow2(k) - 1
    ensures And(x, m) == Low(x, k)
    decreases k
  {
    if x == 0 {
      LowOfZero(k);
    } else if k > 0 {
      MaskHalf(k, m);
      hide Pow2;
      AndLowMask(x / 2, k - 1, m / 2);
    }
  }

  /** x & ~(2^k - 1) rounds down to a multiple of 2^k, */
  lemma {:induction false} AndNotLowMask(x: nat, k: nat, m: nat)
    requires m == Pow2(k) - 1
    ensures AndNot(x, m) == x - Low(x, k)
    decreases k
  {
    if x == 0 {
      LowOfZero(k);
    } else if k == 0 {
      AndNotZero(x);
    } else {
      MaskHalf(k, m);
      hide Pow2;
      AndNotLowMask(x / 2, k - 1, m / 2);
    }
  }

  lemma {:induction false} AndNotZero(x: nat)
    ensures AndNot(x, 0) == x
  {
    if x != 0 { AndNotZero(x / 2); }
  }

  /** and x & 2^k tests whether the remainder modulo 2^(k+1) is in the upper half. */
  lemma {:induction false} AndOneBit(x: nat, k: nat)
    ensures And(x, Pow2(k)) != 0 <==> Low(x, k + 1) >= Pow2(k)
    decreases k
  {
    if x == 0 {
      LowOfZero(k + 1);
    } else if k > 0 {
      AndOneBit(x / 2, k - 1);
    }
  }

  /** The address p modulo 2A. */
  function Residue(p: int, a: nat): int
    requires a > 0
  {
    p % (2 * a)
  }

  predicate Aligned(p: nat, a: nat)
    requires a > 0
  {
    p % a == 0
  }

  /** Pointers that are 0 or A modulo 2A are 0 modulo A. */
  lemma AlignedTwice(p: nat, a: nat)
    requires a > 0 && (Residue(p, a) == 0 || Residue(p, a) == a)
    ensures Aligned(p, a)
  {
    var q, r := p / (2 * a), p % (2 * a);
    assert p == q * (2 * a) + r;
    assert q * (2 * a) == (2 * q) * a;
    assert (2 * q + 1) * a == (2 * q) * a + a;
    ModUnique(p, a, if r == 0 then 2 * q else 2 * q + 1, 0);
  }

  /** The two tests of freea. */
  lemma MaskTells(p: nat, k: nat)
    ensures And(p, Pow2(k) - 1) == 0 <==> Aligned(p, Pow2(k))
    ensures And(p, Pow2(k)) != 0 <==> Residue(p, Pow2(k)) >= Pow2(k)
  {
    AndLowMask(p, k, Pow2(k) - 1);
    LowIsRemainder(p, k);
    AndOneBit(p, k);
    LowIsRemainder(p, k + 1);
    assert Pow2(k + 1) == 2 * Pow2(k);
  }

  lemma NullIsAligned(a: nat)
    requires a > 0
    ensures Residue(0, a) == 0
  {}

  // ------------------------------------------------------------------- the heap

  predicate Within(a: nat, start: nat, size: nat) {
    start <= a < start + size
  }

  /** The distance from the start of a block to the pointer in it; the first sum is made not to overflow. */
  method Offset(umem: nat, a: nat, space: nat) returns (offset: nat)
    requires a > 0 && umem + a < space
    ensures 1 <= offset <= 2 * a && Residue(umem + offset, a) == a
    ensures offset == 2 * a <==> Residue(umem, a) == a
  {
    var umemplus := if umem + a < space then umem + a else umem + a - space;
    OffsetIs(umem, a, umemplus - umemplus % (2 * a) + a - umem);
    offset := umemplus - umemplus % (2 * a) + a - umem;
  }

  /** malloc, free, and the bytes of all blocks. */
  class Heap {
    const space: nat
    var blocks: map<nat, nat>
    var memory: map<nat, nat>

    ghost predicate Valid()
      reads this
    {
      && (forall s :: s in blocks ==> 0 < s && s + blocks[s] <= space)
      && (forall s, a :: s in blocks && s <= a < s + blocks[s] ==> a in memory)
      && Apart(blocks)
    }

    predicate Available(start: nat, size: nat)
      reads this
    {
      && 0 < start && start + size <= space && start !in blocks
      && forall t :: t in blocks ==> start + size <= t || t + blocks[t] <= start
    }

    constructor (top: nat)
      ensures Valid() && blocks == map[] && space == top
    {
      space, blocks, memory := top, map[], map[];
    }

    /** malloc: any free place, or NULL; `place` is the place that this call would choose. */
    method Malloc(size: nat, place: nat) returns (mem: nat)
      requires Valid() && 0 < size
      modifies this
      ensures Valid()
      ensures mem == NULL <==> !old(Available(place, size))
      ensures mem == NULL ==> blocks == old(blocks) && memory == old(memory)
      ensures mem != NULL ==>
                && old(Available(mem, size)) && blocks == old(blocks)[mem := size]
                && forall a :: a in old(memory) && !(mem <= a < mem + size) ==>
                                  a in memory && memory[a] == old(memory[a])
    {
      if !Available(place, size) {
        return NULL;
      }
      var garbage: nat :| garbage < SMALL;
      mem := place;
      blocks := blocks[mem := size];
      memory := memory + map a: nat | mem <= a < mem + size && Within(a, mem, size) :: garbage;
    }

    /** free */
    method Free(mem: nat)
      requires Valid() && mem in blocks
      modifies this
      ensures Valid() && blocks == old(blocks) - {mem}
      ensures forall a :: a in old(memory) && !(mem <= a < mem + old(blocks[mem])) ==>
                            a in memory && memory[a] == old(memory[a])
    {
      var size := blocks[mem];
      blocks := blocks - {mem};
      memory := map a | a in memory && !(mem <= a < mem + size) :: memory[a];
    }

    method Store(a: nat, v: nat)
      requires Valid() && a in memory
      modifies `memory
      ensures Valid() && memory == old(memory)[a := v]
    {
      memory := memory[a := v];
    }
  }

  // ----------------------------------------------------------------- the code

  /** The result of a call of malloca: n bytes at p; a heap pointer has its block at mem. */
  datatype Piece = Piece(p: nat, n: nat, mem: nat, onHeap: bool)

  /** The heap knows the block of a piece, and the byte in front of it leads there. */
  ghost predicate LiveIn(x: Piece, a: nat, blocks: map<nat, nat>, memory: map<nat, nat>)
    requires a > 0
  {
    && Residue(x.p, a) == (if x.onHeap then a else 0)
    && (x.onHeap ==>
          && x.mem in blocks
          && blocks[x.mem] == x.n + 2 * a
          && x.mem < x.p && x.p + x.n <= x.mem + blocks[x.mem]
          && x.p - 1 in memory
          && memory[x.p - 1] == x.p - x.mem)
  }

  /** Outside of the given bytes memory is as before. */
  ghost predicate Untouched(before: map<nat, nat>, after: map<nat, nat>, start: nat, size: nat) {
    forall a :: a in before && !(start <= a < start + size) ==> a in after && after[a] == before[a]
  }

  /** A piece stays live if its block stays and the byte in front of it is not touched. */
  lemma StaysLive(x: Piece, a: nat, blocks: map<nat, nat>, memory: map<nat, nat>,
                  blocks': map<nat, nat>, memory': map<nat, nat>, start: nat, size: nat)
    requires a > 0 && LiveIn(x, a, blocks, memory) && Untouched(memory, memory', start, size)
    requires x.onHeap ==> x.mem in blocks' && x.mem in blocks && blocks'[x.mem] == blocks[x.mem]
    requires x.onHeap ==> !(start <= x.p - 1 < start + size)
    ensures LiveIn(x, a, blocks', memory')
  {
    hide Residue;
  }

  /** The byte in front of a heap pointer, and the piece itself, are in its block. */
  lemma InFront(x: Piece, a: nat, blocks: map<nat, nat>, memory: map<nat, nat>)
    requires a > 0 && LiveIn(x, a, blocks, memory) && x.onHeap
    ensures x.mem in blocks && x.mem <= x.p - 1 && x.p + x.n <= x.mem + blocks[x.mem]
    ensures blocks[x.mem] == x.n + 2 * a
  {
    hide Residue;
  }

  /** Pieces stay live when a place is taken that was free. */
  lemma AllStay(live: seq<Piece>, a: nat, blocks: map<nat, nat>, memory: map<nat, nat>,
                blocks': map<nat, nat>, memory': map<nat, nat>, start: nat, size: nat)
    requires a > 0 && forall j :: 0 <= j < |live| ==> LiveIn(live[j], a, blocks, memory)
    requires Untouched(memory, memory', start, size)
    requires forall s :: s in blocks ==> s in blocks' && blocks'[s] == blocks[s]
    requires size > 0 ==> forall s :: s in blocks ==> s + blocks[s] <= start || start + size <= s
    ensures forall j :: 0 <= j < |live| ==> LiveIn(live[j], a, blocks', memory')
    ensures forall j :: 0 <= j < |live| && live[j].onHeap ==> live[j].mem in blocks
  {
    hide LiveIn;
    forall j | 0 <= j < |live|
      ensures LiveIn(live[j], a, blocks', memory') && (live[j].onHeap ==> live[j].mem in blocks)
    {
      if live[j].onHeap { InFront(live[j], a, blocks, memory); }
      StaysLive(live[j], a, blocks, memory, blocks', memory', start, size);
    }
  }

  /** Blocks that do not overlap, as the heap keeps them. */
  ghost predicate Apart(blocks: map<nat, nat>) {
    forall s, t :: s in blocks && t in blocks && s < t ==> s + blocks[s] <= t
  }

  /** The other pieces stay live when the block of one is freed. */
  lemma OthersStay(live: seq<Piece>, i: nat, a: nat, blocks: map<nat, nat>, memory: map<nat, nat>,
                   blocks': map<nat, nat>, memory': map<nat, nat>, start: nat, size: nat)
    requires a > 0 && i < |live| && forall j :: 0 <= j < |live| ==> LiveIn(live[j], a, blocks, memory)
    requires forall j, l :: 0 <= j < l < |live| && live[j].onHeap && live[l].onHeap ==> live[j].mem != live[l].mem
    requires Untouched(memory, memory', start, size) && Apart(blocks)
    requires if live[i].onHeap then start == live[i].mem && size == live[i].n + 2 * a && blocks' == blocks - {start}
             else size == 0 && blocks' == blocks
    ensures var rest := live[..i] + live[i + 1..];
            forall j :: 0 <= j < |rest| ==> LiveIn(rest[j], a, blocks', memory')
  {
    hide LiveIn;
    var rest := live[..i] + live[i + 1..];
    if live[i].onHeap { InFront(live[i], a, blocks, memory); }
    forall j | 0 <= j < |rest| ensures LiveIn(rest[j], a, blocks', memory') {
      var l := if j < i then j else j + 1;
      assert rest[j] == live[l] && l != i;
      if live[l].onHeap { InFront(live[l], a, blocks, memory); }
      StaysLive(live[l], a, blocks, memory, blocks', memory', start, size);
    }
  }

  /** The alignment is 2^k; the size limit is that of idx_t. */
  class Allocator {
    const heap: Heap
    const k: nat
    const limit: nat

    function A(): (a: nat)
      ensures a > 0
    {
      Pow2(k)
    }

    ghost predicate Live(x: Piece)
      reads heap
    {
      LiveIn(x, A(), heap.blocks, heap.memory)
    }

    constructor (h: Heap, exponent: nat, most: nat)
      requires 2 * Pow2(exponent) - 1 < SMALL
      ensures heap == h && k == exponent && limit == most
    {
      heap, k, limit := h, exponent, most;
    }

    ghost predicate Valid()
      reads heap
    {
      heap.Valid() && 2 * A() - 1 < SMALL
    }

    /** What mmalloca promises of its result, the byte apart. */
    ghost predicate Placed(x: Piece)
      reads heap
    {
      && x.onHeap && x.mem < x.p <= x.mem + 2 * A() && Residue(x.p, A()) == A()
      && x.mem in heap.blocks && heap.blocks[x.mem] == x.n + 2 * A()
      && x.p + x.n <= x.mem + heap.blocks[x.mem]
    }

    /** The pointer into a new block, with the distance in front of it. */
    method Occupy(mem: nat, n: nat) returns (x: Piece)
      requires Valid() && mem in heap.blocks && heap.blocks[mem] == n + 2 * A()
      modifies heap`memory
      ensures Valid() && x.n == n && x.mem == mem && x.p != NULL && Placed(x)
      ensures Live(x) <==> !(A() == 128 && Residue(x.mem, 128) == 128)
      ensures mem <= x.p - 1 < mem + n + 2 * A()
      ensures forall a :: a in old(heap.memory) && a != x.p - 1 ==>
                            a in heap.memory && heap.memory[a] == old(heap.memory[a])
    {
      hide Pow2, Residue;
      var offset := Offset(mem, A(), heap.space);
      x := Piece(mem + offset, n, mem, true);
      assert mem <= x.p - 1 < mem + heap.blocks[mem];
      heap.Store(x.p - 1, offset % SMALL);
    }

    /**
      mmalloca.  The byte holds every distance but one: with A = 128, which the static
      assertion of the source admits, the distance 256 is stored as 0.
     */
    method MMalloca(n: nat, place: nat) returns (x: Piece)
      requires Valid()
      modifies heap
      ensures Valid()
      ensures x.p == NULL <==> limit < n + 2 * A() || !old(heap.Available(place, n + 2 * A()))
      ensures x.p == NULL ==> heap.blocks == old(heap.blocks) && heap.memory == old(heap.memory)
      ensures x.p != NULL ==>
                && x.n == n && Placed(x)
                && old(heap.Available(x.mem, n + 2 * A())) && heap.blocks == old(heap.blocks)[x.mem := n + 2 * A()]
                && (Live(x) <==> !(A() == 128 && Residue(x.mem, 128) == 128))
      ensures forall a :: a in old(heap.memory) && !(x.p != NULL && x.mem <= a < x.mem + n + 2 * A()) ==>
                            a in heap.memory && heap.memory[a] == old(heap.memory[a])
    {
      hide Pow2, Residue;
      x := Piece(NULL, n, NULL, false);
      var plus := 1 + (2 * A() - 1);
      if n + plus > limit {
        return;
      }
      var mem := heap.Malloc(n + plus, place);
      if mem != NULL {
        x := Occupy(mem, n);
      }
    }

    /** malloca; `base` is what alloca returns if the piece comes from the stack. */
    method MallocA(n: nat, base: nat, place: nat) returns (x: Piece)
      requires Valid() && 0 < base
      modifies heap
      ensures Valid()
      ensures n < 4032 - (2 * A() - 1) ==>
                && !x.onHeap && x.n == n && Live(x)
                && base <= x.p && x.p + n <= base + (n + 2 * A() - 1)
                && heap.blocks == old(heap.blocks) && heap.memory == old(heap.memory)
      ensures n >= 4032 - (2 * A() - 1) && x.p != NULL ==>
                && x.n == n && Placed(x)
                && old(heap.Available(x.mem, n + 2 * A())) && heap.blocks == old(heap.blocks)[x.mem := n + 2 * A()]
                && (Live(x) <==> !(A() == 128 && Residue(x.mem, 128) == 128))
      ensures x.p == NULL <==>
                && 4032 - (2 * A() - 1) <= n
                && (limit < n + 2 * A() || !old(heap.Available(place, n + 2 * A())))
      ensures x.p == NULL ==> heap.blocks == old(heap.blocks)
      ensures forall a :: a in old(heap.memory) && !(x.p != NULL && x.onHeap && x.mem <= a < x.mem + n + 2 * A()) ==>
                            a in heap.memory && heap.memory[a] == old(heap.memory[a])
    {
      if n < 4032 - (2 * A() - 1) {
        var mask := 2 * A() - 1;
        assert mask == Pow2(k + 1) - 1;
        AndNotLowMask(base + mask, k + 1, mask);
        LowIsRemainder(base + mask, k + 1);
        RoundedDown(base, 2 * A(), AndNot(base + mask, mask));
        x := Piece(AndNot(base + mask, mask), n, NULL, false);
      } else {
        x := MMalloca(n, place);
      }
    }

    /** freea; it aborts on what cannot be the result of malloca. */
    method FreeA(p: nat, ghost x: Piece) returns (aborted: bool)
      requires Valid() && (p == NULL || !Aligned(p, A()) || (p == x.p && Live(x)))
      modifies heap
      ensures Valid()
      ensures aborted <==> !Aligned(p, A())
      ensures p == NULL || (p == x.p && old(Live(x))) ==> !aborted
      ensures heap.blocks == if !aborted && p != NULL && x.onHeap then old(heap.blocks) - {x.mem} else old(heap.blocks)
      ensures forall a :: a in old(heap.memory) &&
                          !(!aborted && p != NULL && x.onHeap && x.mem <= a < x.mem + x.n + 2 * A()) ==>
                            a in heap.memory && heap.memory[a] == old(heap.memory[a])
    {
      hide Pow2, Residue, Aligned, And;
      MaskTells(p, k);
      NullIsAligned(A());
      if p == NULL || (p == x.p && Live(x)) { AlignedTwice(p, A()); }
      if And(p, A() - 1) != 0 {
        return true;
      }
      if And(p, A()) != 0 {
        var mem := p - heap.memory[p - 1];
        heap.Free(mem);
      }
      aborted := false;
    }

    /** All pieces are live, and no two have the same block. */
    ghost predicate AllLive(live: seq<Piece>)
      reads heap
    {
      && (forall i :: 0 <= i < |live| ==> Live(live[i]))
      && (forall i, j :: 0 <= i < j < |live| && live[i].onHeap && live[j].onHeap ==> live[i].mem != live[j].mem)
    }

    /** The blocks are those of `others` and of the live pieces. */
    ghost predicate Accounts(live: seq<Piece>, others: map<nat, nat>)
      reads heap
    {
      && (forall s :: s in others ==> s in heap.blocks && heap.blocks[s] == others[s])
      && (forall s :: s in heap.blocks ==> s in others || OwnsBlock(live, s))
      && (forall i :: 0 <= i < |live| && live[i].onHeap ==> live[i].mem !in others)
    }

    /** The program stores into a piece: the byte in front of no piece changes. */
    method Put(live: seq<Piece>, i: nat, offset: nat, v: nat, ghost others: map<nat, nat>)
      requires Valid() && AllLive(live) && Accounts(live, others) && i < |live| && live[i].onHeap && offset < live[i].n
      modifies heap`memory
      ensures Valid() && AllLive(live) && Accounts(live, others)
    {
      hide Pow2, LiveIn;
      var x := live[i];
      ghost var blocks, memory := heap.blocks, heap.memory;
      assert Live(x);
      InFront(x, A(), blocks, memory);
      assert x.mem in blocks && x.mem <= x.p + offset < x.mem + blocks[x.mem];
      heap.Store(x.p + offset, v);
      forall j | 0 <= j < |live| ensures Live(live[j]) {
        assert LiveIn(live[j], A(), blocks, memory);
        if live[j].onHeap {
          InFront(live[j], A(), blocks, memory);
          assert live[j].mem != x.mem || j == i;
        }
        StaysLive(live[j], A(), blocks, memory, heap.blocks, heap.memory, x.p + offset, 1);
      }
    }

    method Get(live: seq<Piece>, n: nat, base: nat, place: nat, ghost others: map<nat, nat>) returns (live': seq<Piece>)
      requires Valid() && A() < 128 && AllLive(live) && Accounts(live, others) && 0 < base
      modifies heap
      ensures Valid() && AllLive(live') && Accounts(live', others)
    {
      hide Pow2, LiveIn, Residue;
      ghost var blocks, memory := heap.blocks, heap.memory;
      var x := MallocA(n, base, place);
      live' := if x.p == NULL then live else live + [x];
      ghost var onHeap := x.p != NULL && x.onHeap;
      ghost var start, size := if onHeap then x.mem else 0, if onHeap then n + 2 * A() else 0;
      assert forall j :: 0 <= j < |live| ==> LiveIn(live[j], A(), blocks, memory) by {
        assert forall j :: 0 <= j < |live| ==> old(Live(live[j]));
      }
      AllStay(live, A(), blocks, memory, heap.blocks, heap.memory, start, size);
      forall s | s in heap.blocks ensures s in others || OwnsBlock(live', s) {
        if x.p != NULL && x.onHeap && s == x.mem {
          assert live'[|live|].mem == s;
        } else {
          assert s in blocks;
          OwnsMore(live, x, s);
        }
      }
    }

    method Drop(live: seq<Piece>, i: nat, ghost others: map<nat, nat>)
        returns (live': seq<Piece>, aborted: bool)
      requires Valid() && AllLive(live) && Accounts(live, others) && i < |live| && live[i].p != NULL
      modifies heap
      ensures !aborted
      ensures Valid() && AllLive(live') && Accounts(live', others) && live' == live[..i] + live[i + 1..]
    {
      hide Pow2, Residue, Aligned, LiveIn;
      ghost var blocks, memory := heap.blocks, heap.memory;
      var x := live[i];
      assert Live(x);
      if x.onHeap { InFront(x, A(), blocks, memory); }
      aborted := FreeA(x.p, x);
      live' := live[..i] + live[i + 1..];
      ghost var start, size := if x.onHeap then x.mem else 0, if x.onHeap then x.n + 2 * A() else 0;
      assert forall j :: 0 <= j < |live| ==> LiveIn(live[j], A(), blocks, memory) by {
        assert forall j :: 0 <= j < |live| ==> old(Live(live[j]));
      }
      OthersStay(live, i, A(), blocks, memory, heap.blocks, heap.memory, start, size);
      forall s | s in heap.blocks ensures s in others || OwnsBlock(live', s) {
        assert s in blocks;
        if s !in others { OwnsLess(live, i, s); }
      }
    }

    /**
      Any program that obtains pieces, stores into them and gives them back, in any order:
      no freea aborts or frees a block that is not its own, and when all pieces are given
      back the heap has exactly the blocks it had before.
     */
    method Run(script: seq<Request>) returns (live: seq<Piece>, aborted: bool)
      requires Valid() && A() < 128 && forall i :: 0 <= i < |script| ==> Sensible(script[i])
      modifies heap
      ensures !aborted
      ensures Valid() && AllLive(live) && Accounts(live, old(heap.blocks))
      ensures (forall i :: 0 <= i < |live| ==> !live[i].onHeap) ==> heap.blocks == old(heap.blocks)
    {
      hide Pow2, Residue, Allocator.Live;
      live, aborted := [], false;
      for i := 0 to |script|
        invariant !aborted
        invariant Valid() && AllLive(live) && Accounts(live, old(heap.blocks))
      {
        match script[i] {
          case Obtain(n, base, place) => live := Get(live, n, base, place, old(heap.blocks));
          case Write(index, offset, v) =>
            if index < |live| && live[index].onHeap && offset < live[index].n {
              Put(live, index, offset, v, old(heap.blocks));
            }
          case Return(index) =>
            if index < |live| && live[index].p != NULL {
              live, aborted := Drop(live, index, old(heap.blocks));
              if aborted { return; }
            }
        }
      }
    }
  }

  datatype Request =
    | Obtain(n: nat, base: nat, place: nat)
    | Write(index: nat, offset: nat, value: nat)
    | Return(index: nat)

  predicate Sensible(r: Request) {
    r.Obtain? ==> 0 < r.base
  }

  ghost predicate OwnsBlock(live: seq<Piece>, s: nat) {
    exists i :: 0 <= i < |live| && live[i].onHeap && live[i].mem == s
  }

  lemma OwnsMore(live: seq<Piece>, x: Piece, s: nat)
    ensures OwnsBlock(live, s) ==> OwnsBlock(live + [x], s)
  {
    if OwnsBlock(live, s) {
      var i :| 0 <= i < |live| && live[i].onHeap && live[i].mem == s;
      assert (live + [x])[i] == live[i];
    }
  }

  lemma OwnsLess(live: seq<Piece>, i: nat, s: nat)
    requires i < |live| && OwnsBlock(live, s) && !(live[i].onHeap && live[i].mem == s)
    ensures OwnsBlock(live[..i] + live[i + 1..], s)
  {
    var j :| 0 <= j < |live| && live[j].onHeap && live[j].mem == s;
    assert (live[..i] + live[i + 1..])[if j < i then j else j - 1] == live[j];
  }

  /**
    The distance that mmalloca stores, for any alignment that the static assertion of the
    source admits: the byte holds it unless A is 128 and the block starts at 128 modulo 256.
   */
  lemma DistanceFits(mem: nat, a: nat, offset: int)
    requires 0 < a <= 128 && offset == (mem + a) - (mem + a) % (2 * a) + a - mem
    ensures offset % SMALL == offset <==> !(a == 128 && Residue(mem, a) == a)
  {
    OffsetIs(mem, a, offset);
  }

  lemma DistanceLost(offset: int)
    requires offset == (128 + 128) - (128 + 128) % (2 * 128) + 128 - 128
    ensures offset == 256 && offset % SMALL == 0
  {}

  /** The place of a heap pointer in its block. */
  lemma OffsetIs(mem: nat, a: nat, offset: int)
    requires a > 0 && offset == (mem + a) - (mem + a) % (2 * a) + a - mem
    ensures 1 <= offset <= 2 * a && (mem + offset) % (2 * a) == a
    ensures offset == 2 * a <==> mem % (2 * a) == a
  {
    var d := 2 * a;
    var q, r := (mem + a) / d, (mem + a) % d;
    assert mem + a == q * d + r;
    ModUnique(mem + offset, d, q, a);
    if r >= a {
      ModUnique(mem, d, q, r - a);
    } else {
      assert (q - 1) * d == q * d - d;
      ModUnique(mem, d, q - 1, r + a);
    }
  }

  lemma RoundedDown(base: nat, d: nat, p: int)
    requires d > 0 && p == (base + d - 1) - (base + d - 1) % d
    ensures base <= p <= base + d - 1 && p % d == 0
  {
    var q := (base + d - 1) / d;
    ModUnique(p, d, q, 0);
  }
}
