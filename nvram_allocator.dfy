/** The bump allocator `NvramAllocator` of os/kernel/src/memory/nvram_allocator.rs.

    The allocator state is four machine words. Its transitions are given first as
    functions on an `AllocState` value (so that lemmas can relate several calls),
    and then by the class `NvramAllocator`, whose methods update the four fields
    in place and are proved to follow those functions. The `Locked` wrapper and
    its lock are not modelled: the class is a plain single-owner object. */
module Nvram {
  import opened Wrappers

  /** Alignments of a `Layout` are powers of two. */
  predicate IsPowerOfTwo(n: nat)
    decreases n
  {
    if n <= 1 then n == 1 else n % 2 == 0 && IsPowerOfTwo(n / 2)
  }

  lemma {:induction false} PowerOfTwoPositive(n: nat)
    requires IsPowerOfTwo(n)
    ensures n >= 1
  {
    if n > 1 {
      PowerOfTwoPositive(n / 2);
    }
  }

  /** `align_up` of the nvmem module, which is not part of this model: the
      smallest multiple of `align` that is not below `addr`. */
  function AlignUp(addr: nat, align: nat): (r: nat)
    requires align >= 1
    ensures r % align == 0
    ensures addr <= r < addr + align
  {
    var q, m := addr / align, addr % align;
    assert addr == q * align + m;
    if m == 0 then addr
    else
      assert (q + 1) * align == q * align + align;
      assert ((q + 1) * align) % align == 0 by { MultipleHasNoRemainder(q + 1, align); }
      (q + 1) * align
  }

  lemma MultipleHasNoRemainder(k: nat, align: nat)
    requires align >= 1
    ensures (k * align) % align == 0
  {
    var p := k * align;
    var q, m := p / align, p % align;
    assert (k - q) * align == m;
    MulSign(k - q, align);
  }

  /** A non-zero multiple of `a` is at least `a` away from zero. */
  lemma {:induction false} MulSign(d: int, a: nat)
    ensures d == 0 ==> d * a == 0
    ensures d >= 1 ==> d * a >= a
    ensures d <= -1 ==> d * a + a <= 0
    decreases if d < 0 then -d else d
  {
    if d > 1 {
      MulSign(d - 1, a);
      assert d * a == (d - 1) * a + a;
    } else if d < -1 {
      MulSign(d + 1, a);
      assert d * a == (d + 1) * a - a;
    }
  }

  /** The four fields of `NvramAllocator`. */
  datatype AllocState = AllocState(heapStart: Usize, heapEnd: Usize, next: Usize, allocations: nat)

  /** The allocator invariant: the cursor lies inside the arena. */
  predicate Inv(s: AllocState)
  {
    s.heapStart <= s.next <= s.heapEnd
  }

  /** The block handed out by a successful `allocate`: the `NonNull<[u8]>` slice
      `(start, len)`. */
  datatype Block = Block(start: Usize, len: Usize)

  datatype AllocError = AllocError

  /** Result of one `allocate` call together with the state after it. */
  datatype AllocOutcome = AllocOutcome(result: Result<Block, AllocError>, state: AllocState)

  /** `NvramAllocator::new`: every field zero. */
  function Empty(): (s: AllocState)
    ensures Inv(s) && s.heapStart == s.heapEnd == s.next == 0 && s.allocations == 0
  {
    AllocState(0, 0, 0, 0)
  }

  /** `init(heap_start, heap_size)`: the arena becomes `[heap_start, heap_start +
      heap_size)`, its end saturating at `usize::MAX`; the cursor starts at the
      beginning and the live count is left as it was. */
  function InitStep(s: AllocState, heapStart: Usize, heapSize: Usize): (t: AllocState)
    ensures Inv(t)
    ensures t.heapStart == heapStart && t.next == heapStart
    ensures heapStart + heapSize <= USIZE_MAX ==> t.heapEnd == heapStart + heapSize
    ensures heapStart + heapSize > USIZE_MAX ==> t.heapEnd == USIZE_MAX
    ensures t.allocations == s.allocations
  {
    var end := if heapStart + heapSize <= USIZE_MAX then heapStart + heapSize else USIZE_MAX;
    AllocState(heapStart, end, heapStart, s.allocations)
  }

  /** Whether `allocate(size, align)` succeeds in state `s`: the aligned cursor plus
      `size` neither overflows `usize` nor passes `heap_end`. */
  predicate Fits(s: AllocState, size: Usize, align: nat)
    requires align >= 1
  {
    var start := AlignUp(s.next, align);
    start + size <= USIZE_MAX && start + size <= s.heapEnd
  }

  /** `allocate(layout)`: round the cursor up to the alignment; on success hand out
      `[start, start + size)`, move the cursor to its end and count one more live
      allocation; on failure change nothing. */
  function AllocateStep(s: AllocState, size: Usize, align: Usize): (o: AllocOutcome)
    requires IsPowerOfTwo(align)
    ensures o.result.Success? <==> (PowerOfTwoPositive(align); Fits(s, size, align))
    ensures o.result.Failure? ==> o.state == s
    ensures o.result.Success? ==>
      var b := o.result.value;
      && b.start % align == 0
      && s.next <= b.start < s.next + align
      && b.len == size
      && b.start + size <= s.heapEnd
      && o.state == s.(next := b.start + size, allocations := s.allocations + 1)
    ensures Inv(s) ==> Inv(o.state)
  {
    PowerOfTwoPositive(align);
    var start := AlignUp(s.next, align);
    if start + size > USIZE_MAX then
      AllocOutcome(Failure(AllocError), s)
    else if start + size > s.heapEnd then
      AllocOutcome(Failure(AllocError), s)
    else
      AllocOutcome(Success(Block(start, size)), s.(next := start + size, allocations := s.allocations + 1))
  }

  /** `deallocate(ptr, layout)`: both arguments are ignored; the live count drops by
      one and the whole arena is reclaimed when it reaches zero. */
  function DeallocateStep(s: AllocState): (t: AllocState)
    requires s.allocations > 0
    ensures t.allocations == s.allocations - 1
    ensures t.heapStart == s.heapStart && t.heapEnd == s.heapEnd
    ensures t.next == s.heapStart <== t.allocations == 0
    ensures t.allocations > 0 ==> t.next == s.next
    ensures Inv(s) ==> Inv(t)
  {
    var count := s.allocations - 1;
    if count == 0 then s.(allocations := count, next := s.heapStart)
    else s.(allocations := count)
  }

  /** A request made of the allocator. */
  datatype Request = Allocate(size: Usize, align: Usize) | Deallocate

  predicate WellFormed(r: Request)
  {
    r.Allocate? ==> IsPowerOfTwo(r.align)
  }

  /** A sequence of requests in which no `deallocate` brings the live count to zero
      (each one finds at least two live allocations). */
  predicate KeepsLive(s: AllocState, reqs: seq<Request>)
    decreases |reqs|
  {
    reqs == [] ||
    (WellFormed(reqs[0]) &&
     (reqs[0].Deallocate? ==> s.allocations >= 2) &&
     KeepsLive(Step(s, reqs[0]), reqs[1..]))
  }

  function Step(s: AllocState, r: Request): AllocState
    requires WellFormed(r)
    requires r.Deallocate? ==> s.allocations > 0
  {
    match r
    case Allocate(size, align) => AllocateStep(s, size, align).state
    case Deallocate => DeallocateStep(s)
  }

  /** The blocks handed out, in order, while serving `reqs` from state `s`. */
  function Granted(s: AllocState, reqs: seq<Request>): seq<Block>
    requires KeepsLive(s, reqs)
    decreases |reqs|
  {
    if reqs == [] then []
    else
      var here := match reqs[0]
        case Allocate(size, align) =>
          (var o := AllocateStep(s, size, align); if o.result.Success? then [o.result.value] else [])
        case Deallocate => [];
      here + Granted(Step(s, reqs[0]), reqs[1..])
  }

  /** The state after serving `reqs` from state `s`. */
  function Replay(s: AllocState, reqs: seq<Request>): AllocState
    requires KeepsLive(s, reqs)
    decreases |reqs|
  {
    if reqs == [] then s else Replay(Step(s, reqs[0]), reqs[1..])
  }

  /** Every block of `g` lies inside `[lo, hi)`. */
  predicate Within(g: seq<Block>, lo: nat, hi: nat)
  {
    forall i :: 0 <= i < |g| ==> lo <= g[i].start && g[i].start + g[i].len <= hi
  }

  /** Each block of `g` ends at or before the start of every later one. */
  predicate Ordered(g: seq<Block>)
  {
    forall i, j :: 0 <= i < j < |g| ==> g[i].start + g[i].len <= g[j].start
  }

  lemma ConsOrdered(b: Block, rest: seq<Block>, lo: nat, mid: nat, hi: nat)
    requires lo <= b.start && b.start + b.len == mid <= hi
    requires Within(rest, mid, hi) && Ordered(rest)
    ensures Within([b] + rest, lo, hi) && Ordered([b] + rest)
  {
    var g := [b] + rest;
    forall i, j | 0 <= i < j < |g| ensures g[i].start + g[i].len <= g[j].start {
      if i > 0 {
        assert g[i] == rest[i - 1] && g[j] == rest[j - 1];
      } else {
        assert g[j] == rest[j - 1];
      }
    }
  }

  /** While the live count never returns to zero the cursor only moves forward, and
      the blocks handed out lie one after the other inside the arena: each block
      ends at or before the start of every later one, so no two overlap. */
  lemma {:induction false} GrantedBlocksAreOrdered(s: AllocState, reqs: seq<Request>)
    requires Inv(s)
    requires KeepsLive(s, reqs)
    ensures Inv(Replay(s, reqs))
    ensures s.next <= Replay(s, reqs).next
    ensures Within(Granted(s, reqs), s.next, Replay(s, reqs).next)
    ensures Ordered(Granted(s, reqs))
    decreases |reqs|
  {
    if reqs != [] {
      var t := Step(s, reqs[0]);
      GrantedBlocksAreOrdered(t, reqs[1..]);
      var rest := Granted(t, reqs[1..]);
      var last := Replay(s, reqs);
      assert last == Replay(t, reqs[1..]);
      match reqs[0]
      case Allocate(size, align) =>
        var o := AllocateStep(s, size, align);
        if o.result.Success? {
          assert Granted(s, reqs) == [o.result.value] + rest;
          ConsOrdered(o.result.value, rest, s.next, t.next, last.next);
        } else {
          assert Granted(s, reqs) == rest;
        }
      case Deallocate =>
        assert Granted(s, reqs) == rest;
    }
  }

  /** The allocator object. `State()` is the abstract value of its four fields. */
  class NvramAllocator {
    var heapStart: Usize
    var heapEnd: Usize
    var next: Usize
    var allocations: nat

    function State(): AllocState
      reads this
    {
      AllocState(heapStart, heapEnd, next, allocations)
    }

    ghost predicate Valid()
      reads this
    {
      Inv(State())
    }

    /** `NvramAllocator::new`. */
    constructor ()
      ensures State() == Empty()
      ensures Valid()
    {
      heapStart, heapEnd, next, allocations := 0, 0, 0, 0;
    }

    /** `NvramAllocator::init`. */
    method Init(heapStart: Usize, heapSize: Usize)
      modifies this
      ensures State() == InitStep(old(State()), heapStart, heapSize)
      ensures Valid()
    {
      this.heapStart := heapStart;
      this.heapEnd := if heapStart + heapSize <= USIZE_MAX then heapStart + heapSize else USIZE_MAX;
      this.next := heapStart;
    }

    /** `Allocator::allocate` for `Locked<NvramAllocator>`. The address zero, which
        `NonNull::new(..).unwrap()` would reject, can only be handed out while the
        cursor is zero: before `init`, and whenever the heap starts at address 0
        (after `init(0, ..)` or a reset to such a start). Callers are required not
        to allocate a block that fits in that state. */
    method Allocate(size: Usize, align: Usize) returns (r: Result<Block, AllocError>)
      requires IsPowerOfTwo(align)
      requires next == 0 ==> size > heapEnd
      modifies this
      ensures r == AllocateStep(old(State()), size, align).result
      ensures State() == AllocateStep(old(State()), size, align).state
      ensures r.Success? ==> r.value.start != 0
      ensures old(Valid()) ==> Valid()
    {
      PowerOfTwoPositive(align);
      var allocStart := AlignUp(next, align);
      if allocStart + size > USIZE_MAX {
        return Failure(AllocError);
      }
      var allocEnd := allocStart + size;
      if allocEnd > heapEnd {
        r := Failure(AllocError);
      } else {
        next := allocEnd;
        allocations := allocations + 1;
        r := Success(Block(allocStart, size));
      }
    }

    /** `Allocator::deallocate` for `Locked<NvramAllocator>`: `ptr` and the layout
        are not looked at. Its safety contract (the block is live) is what makes
        the count positive. */
    method Deallocate(ptr: Usize, size: Usize, align: Usize)
      requires allocations > 0
      modifies this
      ensures State() == DeallocateStep(old(State()))
      ensures old(Valid()) ==> Valid()
    {
      allocations := allocations - 1;
      if allocations == 0 {
        next := heapStart;
      }
    }
  }

  /** The scenario of an arena of 64 KiB at 1 MiB: two allocations are placed one
      after the other with their alignments, and two deallocations reclaim the
      arena. */
  method WorkedExample() returns (first: Result<Block, AllocError>, second: Result<Block, AllocError>, cursor: Usize)
    ensures first == Success(Block(0x100000, 64))
    ensures second == Success(Block(0x100040, 32))
    ensures cursor == 0x100000
  {
    var a := new NvramAllocator();
    a.Init(0x100000, 0x10000);
    first := a.Allocate(64, 16);
    second := a.Allocate(32, 32);
    a.Deallocate(0x100000, 64, 16);
    a.Deallocate(0x100040, 32, 32);
    cursor := a.next;
  }
}
