/**
 The bump allocator of `memory.cpp` and the pool that hands arenas out. Addresses and sizes
 are 64-bit machine words; wrap-around is written out.
 */
module Arena {
  import opened Bytes

  const WORD := 0x1_0000_0000_0000_0000

  /** Bitwise and of the n low bits. */
  function And(a: nat, b: nat, n: nat): nat {
    if n == 0 then 0 else 2 * And(a / 2, b / 2, n - 1) + (if a % 2 == 1 && b % 2 == 1 then 1 else 0)
  }

  /** (cur + (align - 1)) & ~(align - 1) in 64-bit arithmetic. */
  function AlignUp(cur: nat, align: nat): nat
    requires 0 < align <= WORD
  {
    And((cur + (align - 1)) % WORD, WORD - align, 64)
  }

  lemma {:induction false} Pow2Adds(a: nat, b: nat)
    ensures Pow2(a + b) == Pow2(a) * Pow2(b)
    decreases a
  {
    if a > 0 {
      Pow2Adds(a - 1, b);
    }
  }

  lemma WordIsPow2()
    ensures Pow2(64) == WORD
  {
    assert Pow2(4) == 16;
    Pow2Adds(4, 4);
    Pow2Adds(8, 8);
    Pow2Adds(16, 16);
    Pow2Adds(32, 32);
  }

  lemma {:induction false} Pow2Grows(k: nat, n: nat)
    requires k <= n
    ensures Pow2(k) <= Pow2(n)
    decreases n
  {
    if k < n {
      Pow2Grows(k, n - 1);
    }
  }

  lemma AtLeastOnce(e: int, d: int)
    requires e >= 1 && d >= 0
    ensures e * d >= d
  {
    assert e * d == (e - 1) * d + d;
  }

  /** Quotient and remainder are determined by the division equation. */
  lemma DivModUnique(a: int, d: int, q: int, r: int)
    requires d > 0 && a == q * d + r && 0 <= r < d
    ensures a / d == q && a % d == r
  {
    var q', r' := a / d, a % d;
    assert a == q' * d + r' && 0 <= r' < d;
    SameQuotient(d, q, r, q', r');
  }

  lemma SameQuotient(d: int, q: int, r: int, q': int, r': int)
    requires 0 <= r < d && 0 <= r' < d && q * d + r == q' * d + r'
    ensures q == q' && r == r'
  {
    if q' > q {
      assert (q' - q) * d == q' * d - q * d;
      AtLeastOnce(q' - q, d);
    } else if q > q' {
      assert (q - q') * d == q * d - q' * d;
      AtLeastOnce(q - q', d);
    }
  }

  lemma ModDoubles(x: nat, m: nat)
    requires m > 0
    ensures x % (2 * m) == 2 * ((x / 2) % m) + x % 2
  {
    var q, r := (x / 2) / m, (x / 2) % m;
    assert x == 2 * (x / 2) + x % 2 && x / 2 == q * m + r;
    assert x == q * (2 * m) + (2 * r + x % 2);
    DivModUnique(x, 2 * m, q, 2 * r + x % 2);
  }

  lemma {:induction false} AndOnes(x: nat, n: nat)
    requires x < Pow2(n)
    ensures And(x, Pow2(n) - 1, n) == x
  {
    if n > 0 {
      AndOnes(x / 2, n - 1);
      Halves(Pow2(n - 1) - 1);
    }
  }

  /** The largest multiple of d that is not above x. */
  function RoundDown(x: nat, d: nat): int
    requires d > 0
  {
    x - x % d
  }

  /** Clearing the k low bits rounds down to a multiple of 2^k. */
  lemma {:induction false} MaskRoundsDown(x: nat, k: nat, n: nat)
    requires k <= n && x < Pow2(n)
    ensures Pow2(k) <= Pow2(n)
    ensures And(x, Pow2(n) - Pow2(k), n) == RoundDown(x, Pow2(k))
    decreases n
  {
    hide And, Pow2, RoundDown;
    Pow2Grows(k, n);
    Pow2Unfold(n);
    Pow2Unfold(k);
    if k == 0 {
      AndOnes(x, n);
      RoundDownByOne(x);
    } else {
      HalfIsBelow(x, Pow2(n - 1));
      MaskRoundsDown(x / 2, k - 1, n - 1);
      AndOfDouble(x, Pow2(n - 1) - Pow2(k - 1), Pow2(n) - Pow2(k), n);
      RoundDownDoubles(x, Pow2(k - 1), Pow2(k));
    }
  }

  lemma Pow2Unfold(n: nat)
    ensures Pow2(n) == if n == 0 then 1 else 2 * Pow2(n - 1)
  {
  }

  lemma HalfIsBelow(x: nat, m: nat)
    requires x < 2 * m
    ensures x / 2 < m
  {
  }

  lemma RoundDownByOne(x: nat)
    ensures RoundDown(x, 1) == x
  {
  }

  lemma RoundDownDoubles(x: nat, m: nat, d: nat)
    requires m > 0 && d == 2 * m
    ensures 2 * RoundDown(x / 2, m) == RoundDown(x, d)
  {
    ModDoubles(x, m);
  }

  lemma AndOfDouble(x: nat, m: nat, d: nat, n: nat)
    requires n > 0 && d == 2 * m
    ensures And(x, d, n) == 2 * And(x / 2, m, n - 1)
  {
    Halves(m);
    AndUnfold(x, 2 * m, n);
    hide And;
  }

  lemma AndUnfold(a: nat, b: nat, n: nat)
    requires n > 0
    ensures And(a, b, n) == 2 * And(a / 2, b / 2, n - 1) + (if a % 2 == 1 && b % 2 == 1 then 1 else 0)
  {
  }

  lemma Halves(m: int)
    ensures (2 * m) / 2 == m && (2 * m) % 2 == 0 && (2 * m + 1) / 2 == m && (2 * m + 1) % 2 == 1
  {
  }

  ghost predicate IsPow2(a: nat) {
    exists k: nat :: k < 64 && a == Pow2(k)
  }

  predicate Aligned(x: nat, align: nat)
    requires align > 0
  {
    x % align == 0
  }

  /** Unless the addition wraps, the mask form is the least aligned address not below the cursor. */
  lemma AlignUpIsLeast(cur: nat, align: nat)
    requires 0 < align <= WORD && IsPow2(align) && cur + align - 1 < WORD
    ensures var r := AlignUp(cur, align);
            && cur <= r < cur + align && Aligned(r, align)
            && forall y: nat :: cur <= y && Aligned(y, align) ==> r <= y
  {
    AlignUpRounds(cur, align);
    hide AlignUp, IsPow2;
    RoundDownIsLeast(cur, align);
  }

  lemma AlignUpRounds(cur: nat, align: nat)
    requires 0 < align <= WORD && IsPow2(align) && cur + align - 1 < WORD
    ensures var x := cur + align - 1; AlignUp(cur, align) == x - x % align
  {
    var k: nat :| k < 64 && align == Pow2(k);
    WordIsPow2();
    hide And, Pow2;
    var x := cur + (align - 1);
    SmallMod(x, WORD);
    MaskRoundsDown(x, k, 64);
  }

  lemma RoundDownIsLeast(cur: nat, align: nat)
    requires align > 0
    ensures var x := cur + align - 1;
            var r := x - x % align;
            && cur <= r < cur + align && r % align == 0
            && forall y: nat :: cur <= y && Aligned(y, align) ==> r <= y
  {
    var x := cur + align - 1;
    var q := x / align;
    var r := x - x % align;
    assert r == q * align;
    DivModUnique(r, align, q, 0);
    forall y: nat | cur <= y && Aligned(y, align)
      ensures r <= y
    {
      var q' := y / align;
      assert y == q' * align;
      if q' < q {
        assert (q - q') * align == r - y;
        AtLeastOnce(q - q', align);
      } else if q' > q {
        assert (q' - q) * align == y - r;
        AtLeastOnce(q' - q, align);
      }
    }
  }

  /** When it wraps, the result is address 0. */
  lemma AlignUpWraps(cur: nat, align: nat)
    requires 0 < align <= WORD && IsPow2(align) && cur < WORD <= cur + align - 1
    ensures AlignUp(cur, align) == 0
  {
    var k: nat :| k < 64 && align == Pow2(k);
    WordIsPow2();
    var x := cur + (align - 1) - WORD;
    Pow2Grows(k, 64);
    MaskRoundsDown(x, k, 64);
    hide And, Pow2;
    ModWraps(cur + (align - 1));
    SmallMod(x, align);
  }

  lemma ModWraps(y: int)
    ensures WORD <= y < 2 * WORD ==> y % WORD == y - WORD
    ensures -WORD <= y < 0 ==> y % WORD == y + WORD
    ensures 0 <= y < WORD ==> y % WORD == y
  {
  }

  lemma SmallMod(x: int, d: int)
    requires 0 <= x < d
    ensures x % d == x
  {
    DivModUnique(x, d, 0, x);
  }

  // --------------------------------------------------------------------- allocation

  datatype Block = Block(addr: nat, size: nat, align: nat)

  ghost predicate Disjoint(a: Block, b: Block) {
    a.addr + a.size <= b.addr || b.addr + b.size <= a.addr
  }

  /**
   How a call of `alloc` ends: no room, a cleared block, or a block that passed the bounds test
   without lying in the arena, so that clearing it writes to memory of others.
   */
  datatype Allocation = Refused | Handed(addr: nat) | Overrun(addr: nat)

  class Arena {
    const base: nat
    const capacity: nat
    /** The bytes from `base` on. */
    const memory: array<byte>
    var offset: nat
    var managementFlag: nat
    /** Blocks handed out since the last reset. */
    ghost var blocks: seq<Block>

    constructor (base: nat, capacity: nat, flag: nat)
      requires base + capacity < WORD && (base == 0 ==> capacity == 0)
      ensures Valid() && blocks == [] && offset == 0 && fresh(memory)
      ensures this.base == base && this.capacity == capacity && managementFlag == flag
    {
      this.base, this.capacity, offset, managementFlag, blocks := base, capacity, 0, flag, [];
      memory := new byte[capacity];
    }

    /** The memory is addressable and the cursor inside it. */
    ghost predicate InBounds()
      reads this
    {
      base + capacity < WORD && offset <= capacity && (base == 0 ==> capacity == 0) && memory.Length == capacity
    }

    /** Blocks are aligned, inside the arena below the cursor, and pairwise disjoint. */
    ghost predicate Valid()
      reads this
    {
      && InBounds()
      && (forall i :: 0 <= i < |blocks| ==>
            blocks[i].align > 0 && Aligned(blocks[i].addr, blocks[i].align)
            && base <= blocks[i].addr && blocks[i].addr + blocks[i].size <= base + offset)
      && forall i, j :: 0 <= i < j < |blocks| ==> Disjoint(blocks[i], blocks[j])
    }

    method Reset()
      requires Valid()
      modifies this`offset, this`blocks
      ensures Valid() && offset == 0 && blocks == []
    {
      offset, blocks := 0, [];
    }

    /** Neither rounding up nor adding the size leaves the machine word. */
    ghost predicate NoWrap(size: nat, align: nat)
      requires 0 < align <= WORD
      reads this
    {
      && base + offset + align - 1 < WORD
      && AlignUp(base + offset, align) - base + size < WORD
    }

    /**
     `Arena::alloc`, which clears what it hands out. The bounds test passes exactly when the new
     offset, as 64-bit arithmetic has it, is within the capacity; the cleared range then lies in
     the arena if and only if nothing wrapped. Without wrap-around the test says whether the
     aligned block fits, the arena stays valid, and all bytes outside the block keep their value.
     */
    method Alloc(size: nat, align: nat) returns (p: Allocation)
      requires InBounds() && size < WORD && 0 < align <= WORD && IsPow2(align)
      modifies this`offset, this`blocks, memory
      ensures InBounds()
      ensures var start := AlignUp(base + old(offset), align);
              var newOff := (start - base + size) % WORD;
              && offset == (if newOff <= capacity then newOff else old(offset))
              && p == (if newOff > capacity then Refused
                       else if old(NoWrap(size, align)) then Handed(start)
                       else Overrun(start))
      ensures old(NoWrap(size, align)) ==>
        var start := AlignUp(base + old(offset), align);
        p == (if start - base + size <= capacity then Handed(start) else Refused)
      ensures !p.Refused? ==> (p.Handed? <==> base <= p.addr && p.addr + size <= base + capacity)
      ensures !p.Overrun? && old(Valid()) ==> Valid()
      ensures blocks == if p.Handed? then old(blocks) + [Block(p.addr, size, align)] else old(blocks)
      ensures p.Handed? ==> forall i :: 0 <= i < capacity ==>
        memory[i] == if p.addr <= base + i < p.addr + size then 0 else old(memory[i])
      ensures p.Refused? ==> memory[..] == old(memory[..])
      ensures p.Handed? && old(Valid()) ==>
        forall b, i :: b in old(blocks) && 0 <= i < capacity && b.addr <= base + i < b.addr + b.size ==> memory[i] == old(memory[i])
    {
      var cur := (base + offset) % WORD;
      ModWraps(base + offset);
      var aligned := AlignUp(cur, align);
      var newOff := (aligned - base + size) % WORD;
      if cur + align - 1 < WORD {
        AlignUpIsLeast(cur, align);
      } else {
        AlignUpWraps(cur, align);
      }
      hide AlignUp, IsPow2;
      AlignedFits(base, capacity, offset, aligned, size, cur + align - 1 < WORD);
      if newOff > capacity {
        return Refused;
      }
      offset := newOff;
      if aligned < base || aligned + size > base + capacity {
        return Overrun(aligned);
      }
      Clear(aligned - base, size);
      p := Handed(aligned);
      blocks := blocks + [Block(aligned, size, align)];
    }

    /** `memset` with zero. */
    method Clear(from: nat, size: nat)
      requires from + size <= memory.Length
      modifies memory
      ensures forall i :: 0 <= i < memory.Length ==> memory[i] == if from <= i < from + size then 0 else old(memory[i])
    {
      for k := from to from + size
        invariant forall i :: 0 <= i < memory.Length ==> memory[i] == if from <= i < k then 0 else old(memory[i])
      {
        memory[k] := 0;
      }
    }
  }

  /**
   In an arena of 4096 bytes whose first 64 are taken, a request for 2^64 - 64 bytes passes the
   bounds test and is cleared far beyond the arena.
   */
  method WrappedAlloc(base: nat) returns (first: Allocation, wrapped: Allocation)
    requires 0 < base && base + 4096 < WORD
    ensures first == Handed(base) && wrapped == Overrun(base + 64)
  {
    var a := new Arena(base, 4096, 0);
    OneIsPow2();
    ByteAligned(base);
    ByteAligned(base + 64);
    ModWraps(WORD);
    SmallMod(64, WORD);
    hide IsPow2, AlignUp, Arena.Valid;
    first := a.Alloc(64, 1);
    wrapped := a.Alloc(WORD - 64, 1);
  }

  lemma OneIsPow2()
    ensures IsPow2(1)
  {
    assert Pow2(0) == 1;
  }

  lemma ByteAligned(cur: nat)
    requires cur < WORD
    ensures AlignUp(cur, 1) == cur
  {
    OneIsPow2();
    AlignUpIsLeast(cur, 1);
  }

  /** The bounds test against what it is meant to decide. */
  lemma AlignedFits(base: nat, capacity: nat, offset: nat, aligned: nat, size: nat, kept: bool)
    requires base + capacity < WORD && offset <= capacity && (base == 0 ==> capacity == 0) && size < WORD
    requires if kept then base + offset <= aligned else aligned == 0 && offset + base > 0
    requires aligned < WORD
    ensures var newOff := (aligned - base + size) % WORD;
            var exact := kept && aligned - base + size < WORD;
            && (exact ==> newOff == aligned - base + size)
            && (newOff <= capacity ==> (exact <==> base <= aligned && aligned + size <= base + capacity))
  {
    ModWraps(aligned - base + size);
  }

  // ---------------------------------------------------------------------------- pool

  function FreeCount(inUse: seq<bool>): nat {
    if inUse == [] then 0 else (if inUse[|inUse| - 1] then 0 else 1) + FreeCount(inUse[..|inUse| - 1])
  }

  lemma {:induction false} FreeCountUpdate(s: seq<bool>, i: nat, b: bool)
    requires i < |s|
    ensures FreeCount(s[i := b]) == FreeCount(s) - (if s[i] then 0 else 1) + (if b then 0 else 1)
  {
    var n := |s| - 1;
    if i < n {
      FreeCountUpdate(s[..n], i, b);
      assert s[i := b][..n] == s[..n][i := b];
    } else {
      assert s[i := b][..n] == s[..n];
    }
  }

  lemma {:induction false} FreeCountZero(s: seq<bool>)
    ensures FreeCount(s) == 0 <==> forall i :: 0 <= i < |s| ==> s[i]
  {
    if s != [] {
      FreeCountZero(s[..|s| - 1]);
    }
  }

  /** The lowest free slot, which `get` takes. */
  function FirstFree(inUse: seq<bool>): (r: Option<nat>)
    ensures r.None? <==> forall i :: 0 <= i < |inUse| ==> inUse[i]
    ensures r.Some? ==> r.value < |inUse| && !inUse[r.value] && forall i :: 0 <= i < r.value ==> inUse[i]
  {
    if inUse == [] then None
    else if !inUse[0] then Some(0)
    else
      match FirstFree(inUse[1..])
      case None => assert forall i :: 1 <= i < |inUse| ==> inUse[i] == inUse[1..][i - 1]; None
      case Some(i) => assert forall j :: 1 <= j <= i ==> inUse[j] == inUse[1..][j - 1]; Some(i + 1)
  }

  // Whole runs of the pool. A ticket stands for one successful get; its holder gives back
  // the arena it got.

  datatype PoolOp = Acquire | GiveBack(ticket: nat)

  datatype Pool = Pool(inUse: seq<bool>, available: int, holders: map<nat, nat>)

  function PoolStep(p: Pool, op: PoolOp, time: nat): Pool {
    match op
    case Acquire =>
      (match FirstFree(p.inUse)
       case None => p
       case Some(i) => Pool(p.inUse[i := true], p.available - 1, p.holders[time := i]))
    case GiveBack(t) =>
      if t in p.holders && p.holders[t] < |p.inUse| && p.inUse[p.holders[t]]
      then Pool(p.inUse[p.holders[t] := false], p.available + 1, p.holders - {t})
      else p
  }

  function PoolRun(p: Pool, ops: seq<PoolOp>, time: nat): Pool
    decreases |ops|
  {
    if ops == [] then p else PoolRun(PoolStep(p, ops[0], time), ops[1..], time + 1)
  }

  ghost predicate IsHeld(p: Pool, i: nat) {
    exists t :: t in p.holders && p.holders[t] == i
  }

  /** Each arena in use has exactly one holder, free ones have none, and the counter is right. */
  ghost predicate PoolValid(p: Pool, time: nat) {
    && p.available == FreeCount(p.inUse)
    && (forall t :: t in p.holders ==> t < time && p.holders[t] < |p.inUse| && p.inUse[p.holders[t]])
    && (forall t, u :: t in p.holders && u in p.holders && t != u ==> p.holders[t] != p.holders[u])
    && forall i: nat :: i < |p.inUse| && p.inUse[i] ==> IsHeld(p, i)
  }

  lemma AcquireKeepsValid(p: Pool, i: nat, time: nat)
    requires PoolValid(p, time) && i < |p.inUse| && !p.inUse[i]
    ensures PoolValid(Pool(p.inUse[i := true], p.available - 1, p.holders[time := i]), time + 1)
  {
    hide FreeCount;
    var p' := Pool(p.inUse[i := true], p.available - 1, p.holders[time := i]);
    FreeCountUpdate(p.inUse, i, true);
    forall j: nat | j < |p'.inUse| && p'.inUse[j]
      ensures IsHeld(p', j)
    {
      if j == i {
        assert time in p'.holders && p'.holders[time] == i;
      } else {
        assert IsHeld(p, j);
        var t :| t in p.holders && p.holders[t] == j;
        assert t in p'.holders && p'.holders[t] == j;
      }
    }
  }

  lemma GiveBackKeepsValid(p: Pool, t: nat, time: nat)
    requires PoolValid(p, time) && t in p.holders
    ensures PoolValid(Pool(p.inUse[p.holders[t] := false], p.available + 1, p.holders - {t}), time)
  {
    hide FreeCount;
    var p' := Pool(p.inUse[p.holders[t] := false], p.available + 1, p.holders - {t});
    FreeCountUpdate(p.inUse, p.holders[t], false);
    forall j: nat | j < |p'.inUse| && p'.inUse[j]
      ensures IsHeld(p', j)
    {
      assert IsHeld(p, j);
      var u :| u in p.holders && p.holders[u] == j;
      assert u in p'.holders && p'.holders[u] == j;
    }
  }

  lemma PoolStepKeepsValid(p: Pool, op: PoolOp, time: nat)
    requires PoolValid(p, time)
    ensures PoolValid(PoolStep(p, op, time), time + 1)
  {
    match op
    case Acquire =>
      hide PoolValid, FreeCount;
      var free := FirstFree(p.inUse);
      if free.Some? {
        AcquireKeepsValid(p, free.value, time);
      } else {
        LaterIsValid(p, time);
      }
    case GiveBack(t) =>
      LaterIsValid(p, time);
      if t in p.holders {
        HolderInUse(p, t, time);
        GiveBackKeepsValid(p, t, time);
        LaterIsValid(PoolStep(p, op, time), time);
      }
      hide PoolValid, FreeCount;
  }

  lemma LaterIsValid(p: Pool, time: nat)
    ensures PoolValid(p, time) ==> PoolValid(p, time + 1)
  {
    hide FreeCount, IsHeld;
  }

  /** For every sequence of gets and holder releases, no arena has two holders and none leaks. */
  lemma {:induction false} PoolRunKeepsValid(p: Pool, ops: seq<PoolOp>, time: nat)
    requires PoolValid(p, time)
    ensures PoolValid(PoolRun(p, ops, time), time + |ops|)
    decreases |ops|
  {
    if ops != [] {
      PoolStepKeepsValid(p, ops[0], time);
      hide PoolValid, PoolStep;
      PoolRunKeepsValid(PoolStep(p, ops[0], time), ops[1..], time + 1);
    }
  }

  /** `ArenaManager` */
  class ArenaManager {
    var arenas: seq<Arena>
    var inUse: seq<bool>
    var available: nat

    /** The counter counts the free slots; arenas know their slot. */
    ghost predicate Valid()
      reads this, arenas
    {
      && |arenas| == |inUse|
      && available == FreeCount(inUse)
      && forall i :: 0 <= i < |arenas| ==> arenas[i].managementFlag == i && arenas[i].Valid()
    }

    constructor ()
      ensures Valid() && arenas == []
    {
      arenas, inUse, available := [], [], 0;
    }

    /** `create_arenas`; `bases` are the addresses malloc returned, 0 where it failed. */
    method CreateArenas(bases: seq<nat>, capacity: nat)
      requires forall i :: 0 <= i < |bases| ==> bases[i] + capacity < WORD
      modifies this
      ensures Valid() && |arenas| == |bases| && fresh(arenas)
      ensures forall i :: 0 <= i < |bases| ==> !inUse[i] && arenas[i].base == bases[i]
      ensures forall i :: 0 <= i < |bases| ==> arenas[i].capacity == if bases[i] == 0 then 0 else capacity
    {
      arenas, inUse := [], [];
      for i := 0 to |bases|
        invariant |arenas| == |inUse| == i && fresh(arenas)
        invariant forall j :: 0 <= j < i ==> arenas[j].managementFlag == j && arenas[j].Valid()
        invariant forall j :: 0 <= j < i ==> !inUse[j] && arenas[j].base == bases[j]
        invariant forall j :: 0 <= j < i ==> arenas[j].capacity == if bases[j] == 0 then 0 else capacity
        invariant FreeCount(inUse) == i
      {
        var a := new Arena(bases[i], if bases[i] == 0 then 0 else capacity, i);
        arenas := arenas + [a];
        assert (inUse + [false])[..i] == inUse;
        inUse := inUse + [false];
      }
      available := |bases|;
    }

    /** `get`: takes the lowest free slot; fails exactly when the counter is zero. */
    method Get() returns (a: Arena?)
      requires Valid()
      modifies this`inUse, this`available
      ensures Valid()
      ensures a == null <==> old(available) == 0
      ensures match FirstFree(old(inUse)) {
                case None => a == null && inUse == old(inUse) && available == old(available)
                case Some(i) => a == arenas[i] && inUse == old(inUse)[i := true] && available == old(available) - 1
              }
    {
      FreeCountZero(inUse);
      for i := 0 to |arenas|
        invariant forall j :: 0 <= j < i ==> inUse[j]
        invariant inUse == old(inUse) && available == old(available)
      {
        if !inUse[i] {
          FreeCountUpdate(inUse, i, true);
          inUse := inUse[i := true];
          available := available - 1;
          return arenas[i];
        }
      }
      return null;
    }

    /** `release`: frees the slot and empties the arena; a slot that is already free stays as it is. */
    method Release(a: Arena?)
      requires Valid() && (a != null ==> a in arenas)
      modifies this`inUse, this`available, a
      ensures Valid()
      ensures if a != null && old(inUse)[a.managementFlag]
              then inUse == old(inUse)[a.managementFlag := false] && available == old(available) + 1
                   && a.offset == 0 && a.blocks == []
              else inUse == old(inUse) && available == old(available)
    {
      if a == null {
        return;
      }
      var i := a.managementFlag;
      if i < |inUse| && inUse[i] {
        FreeCountUpdate(inUse, i, false);
        inUse := inUse[i := false];
        available := available + 1;
        a.Reset();
      }
    }
  }

  /** One operation on the manager by its users; `held` says who has which arena. */
  method Use(m: ArenaManager, op: PoolOp, k: nat, held: map<nat, Arena>, ghost p: Pool) returns (held': map<nat, Arena>)
    requires m.Valid() && PoolValid(p, k) && Mirrors(m, held, p)
    modifies m, m.arenas
    ensures m.Valid() && m.arenas == old(m.arenas)
    ensures Mirrors(m, held', PoolStep(p, op, k))
  {
    hide PoolValid, FreeCount, FirstFree, Arena.Valid;
    held' := held;
    match op
    case Acquire =>
      var a := m.Get();
      if a != null {
        held' := held[k := a];
      }
    case GiveBack(t) =>
      if t in held {
        HolderInUse(p, t, k);
        m.Release(held[t]);
        held' := held - {t};
      }
  }

  /**
   The pool laws on the objects: whatever gets and holder releases happen, the manager's
   slots and counter are those of the pool, and two live holders never share an arena.
   */
  method UseAll(m: ArenaManager, ops: seq<PoolOp>) returns (held: map<nat, Arena>, ghost p: Pool)
    requires m.Valid() && forall i :: 0 <= i < |m.inUse| ==> !m.inUse[i]
    modifies m, m.arenas
    ensures m.Valid() && m.arenas == old(m.arenas)
    ensures p == PoolRun(Pool(old(m.inUse), old(m.available), map[]), ops, 0)
    ensures Mirrors(m, held, p)
    ensures forall t, u :: t in held && u in held && t != u ==> held[t] != held[u]
  {
    held, p := map[], Pool(m.inUse, m.available, map[]);
    assert PoolValid(p, 0);
    assert ops[0..] == ops;
    for k := 0 to |ops|
      invariant m.Valid() && m.arenas == old(m.arenas)
      invariant PoolValid(p, k) && Mirrors(m, held, p)
      invariant PoolRun(p, ops[k..], k) == PoolRun(Pool(old(m.inUse), old(m.available), map[]), ops, 0)
    {
      hide PoolValid, PoolStep, Mirrors, ArenaManager.Valid;
      DropTwice(ops, k, 1);
      PoolStepKeepsValid(p, ops[k], k);
      held := Use(m, ops[k], k, held, p);
      p := PoolStep(p, ops[k], k);
    }
    HoldersDiffer(m, held, p, |ops|);
  }

  /** The manager's slots and counter are the pool's, and the holders hold the pool's arenas. */
  ghost predicate Mirrors(m: ArenaManager, held: map<nat, Arena>, p: Pool)
    reads m
  {
    && m.inUse == p.inUse && m.available == p.available
    && held.Keys == p.holders.Keys
    && forall t :: t in held ==> p.holders[t] < |m.arenas| && held[t] == m.arenas[p.holders[t]]
  }

  lemma HolderInUse(p: Pool, t: nat, time: nat)
    requires PoolValid(p, time) && t in p.holders
    ensures p.holders[t] < |p.inUse| && p.inUse[p.holders[t]]
  {
  }

  lemma HoldersDiffer(m: ArenaManager, held: map<nat, Arena>, p: Pool, time: nat)
    requires m.Valid() && PoolValid(p, time) && Mirrors(m, held, p)
    ensures forall t, u :: t in held && u in held && t != u ==> held[t] != held[u]
  {
    hide FreeCount, Arena.Valid;
    forall t, u | t in held && u in held && t != u
      ensures held[t] != held[u]
    {
      assert held[t].managementFlag == p.holders[t] && held[u].managementFlag == p.holders[u];
    }
  }
}
