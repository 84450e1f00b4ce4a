/** The bump allocator of db/Arena.h and db/Arena.cpp.

    Addresses are numbers. What operator new[] returns is a parameter of the calls: an address
    that is 8-aligned, not null, and whose block touches no other owned block. */
module Arena {
  import opened Arithmetic

  const BLOCK_SIZE: nat := 4096
  const ADDRESS_SIZE: nat := 8
  const ALIGN: nat := 8

  /** The addresses base, ..., base + size - 1. */
  datatype Range = Range(base: nat, size: nat)

  predicate Within(r: Range, b: Range) {
    b.base <= r.base && r.base + r.size <= b.base + b.size
  }

  predicate Apart(a: Range, b: Range) {
    a.base + a.size <= b.base || b.base + b.size <= a.base
  }

  ghost predicate Owned(r: Range, blocks: seq<Range>) {
    exists b :: b in blocks && Within(r, b)
  }

  ghost predicate PairwiseApart(rs: seq<Range>) {
    forall i, j :: 0 <= i < j < |rs| ==> Apart(rs[i], rs[j])
  }

  ghost predicate ApartFromAll(r: Range, rs: seq<Range>) {
    forall q :: q in rs ==> Apart(r, q)
  }

  ghost predicate BlockOk(b: Range) {
    0 < b.base && b.base % ALIGN == 0 && b.base + b.size <= TWO_64
  }

  /** An address operator new[] may return for a block of this size. */
  ghost predicate IsFresh(base: nat, size: nat, blocks: seq<Range>) {
    BlockOk(Range(base, size)) && ApartFromAll(Range(base, size), blocks)
  }

  /** What the source counts: block sizes and one pointer for each. */
  function Usage(blocks: seq<Range>): nat {
    if blocks == [] then 0 else Usage(blocks[..|blocks| - 1]) + blocks[|blocks| - 1].size + ADDRESS_SIZE
  }

  function Handed(r: Range): seq<Range> {
    if r.size == 0 then [] else [r]
  }

  function TotalSize(blocks: seq<Range>): nat {
    if blocks == [] then 0 else TotalSize(blocks[..|blocks| - 1]) + blocks[|blocks| - 1].size
  }

  lemma UsageAdd(blocks: seq<Range>, b: Range)
    ensures Usage(blocks + [b]) == Usage(blocks) + b.size + ADDRESS_SIZE
  {
    assert (blocks + [b])[..|blocks|] == blocks;
  }

  lemma AddToRemainder(u: nat, v: nat)
    ensures (u % TWO_64 + v) % TWO_64 == (u + v) % TWO_64
  {
  }

  /** On top of their sizes, eight bytes for each block. */
  lemma {:induction false} UsageIs(blocks: seq<Range>)
    ensures Usage(blocks) == TotalSize(blocks) + 8 * |blocks|
  {
    if blocks != [] {
      UsageIs(blocks[..|blocks| - 1]);
    }
  }

  /** Bytes to skip from p to the next aligned address. */
  function Slop(p: nat): (s: nat)
    ensures s < ALIGN && (p + s) % ALIGN == 0
  {
    if p % ALIGN == 0 then 0 else ALIGN - p % ALIGN
  }

  // ---------- the parts of the representation invariant ----------

  ghost predicate BlocksOk(blocks: seq<Range>) {
    (forall b :: b in blocks ==> BlockOk(b)) && PairwiseApart(blocks)
  }

  /** Everything handed out is owned, and no two ranges touch. */
  ghost predicate GivenOk(given: seq<Range>, blocks: seq<Range>) {
    (forall r :: r in given ==> r.size > 0 && Owned(r, blocks)) && PairwiseApart(given)
  }

  /** What is left of the current block is owned and not handed out. */
  ghost predicate TailOk(tail: Range, given: seq<Range>, blocks: seq<Range>) {
    tail.size > 0 ==> Owned(tail, blocks) && ApartFromAll(tail, given)
  }

  lemma BlocksAdd(blocks: seq<Range>, b: Range)
    requires BlocksOk(blocks) && IsFresh(b.base, b.size, blocks)
    ensures BlocksOk(blocks + [b])
  {
    assert b == Range(b.base, b.size);
    PairwiseAdd(blocks, b);
  }

  lemma PairwiseAdd(rs: seq<Range>, r: Range)
    requires PairwiseApart(rs) && ApartFromAll(r, rs)
    ensures PairwiseApart(rs + [r])
  {
    forall i, j | 0 <= i < j < |rs + [r]| ensures Apart((rs + [r])[i], (rs + [r])[j]) {
      assert j == |rs| ==> rs[i] in rs;
    }
  }

  lemma OwnedMore(r: Range, blocks: seq<Range>, b: Range)
    requires Owned(r, blocks)
    ensures Owned(r, blocks + [b])
  {
    var o :| o in blocks && Within(r, o);
    assert o in blocks + [b];
  }

  lemma OwnedApart(r: Range, blocks: seq<Range>, c: Range)
    requires Owned(r, blocks) && ApartFromAll(c, blocks)
    ensures Apart(c, r) && Apart(r, c)
  {
  }

  lemma GivenAdd(given: seq<Range>, blocks: seq<Range>, r: Range)
    requires GivenOk(given, blocks) && (r.size > 0 ==> Owned(r, blocks) && ApartFromAll(r, given))
    ensures GivenOk(given + Handed(r), blocks)
  {
    hide Owned;
    if r.size > 0 {
      PairwiseAdd(given, r);
    } else {
      assert given + [] == given;
    }
  }

  lemma GivenMoreBlocks(given: seq<Range>, blocks: seq<Range>, b: Range)
    requires GivenOk(given, blocks)
    ensures GivenOk(given, blocks + [b])
  {
    hide Owned, PairwiseApart;
    forall r | r in given ensures Owned(r, blocks + [b]) {
      OwnedMore(r, blocks, b);
    }
  }

  /** A part of a block that is being added is owned from then on, and apart from what was given. */
  lemma PartOfNewBlock(given: seq<Range>, blocks: seq<Range>, block: Range, r: Range)
    requires GivenOk(given, blocks) && ApartFromAll(block, blocks) && Within(r, block)
    ensures Owned(r, blocks + [block]) && ApartFromAll(r, given)
  {
    assert block in blocks + [block];
    forall q | q in given ensures Apart(r, q) {
      OwnedApart(q, blocks, block);
    }
  }

  lemma PartOfTail(given: seq<Range>, blocks: seq<Range>, tail: Range, r: Range)
    requires TailOk(tail, given, blocks) && Within(r, tail)
    ensures r.size > 0 ==> Owned(r, blocks) && ApartFromAll(r, given)
  {
    if r.size > 0 {
      var b :| b in blocks && Within(tail, b);
      assert Within(r, b);
    }
  }

  lemma PartOfTailIsTail(given: seq<Range>, blocks: seq<Range>, tail: Range, r: Range)
    requires TailOk(tail, given, blocks) && Within(r, tail)
    ensures TailOk(r, given, blocks)
  {
    PartOfTail(given, blocks, tail, r);
  }

  /** The rest of the tail, once its front has been handed out. */
  lemma RestOfTail(given: seq<Range>, blocks: seq<Range>, tail: Range, r: Range, rest: Range)
    requires TailOk(tail, given, blocks) && Within(r, tail) && Within(rest, tail) && Apart(rest, r)
    ensures TailOk(rest, given + Handed(r), blocks)
  {
    PartOfTail(given, blocks, tail, rest);
  }

  lemma TailMoreBlocks(tail: Range, given: seq<Range>, blocks: seq<Range>, b: Range)
    requires TailOk(tail, given, blocks) && ApartFromAll(b, blocks)
    ensures TailOk(tail, given + Handed(b), blocks + [b])
  {
    hide Owned;
    if tail.size > 0 {
      OwnedMore(tail, blocks, b);
      OwnedApart(tail, blocks, b);
    }
  }

  /** No block can hold a request that wraps: blocks start at 8 or later. */
  lemma TooLargeToOwn(r: Range, blocks: seq<Range>)
    requires BlocksOk(blocks) && r.size + ALIGN > TWO_64
    ensures !Owned(r, blocks)
  {
  }

  class Arena {
    var allocPtr: nat
    var remaining: nat
    var blocks: seq<Range>
    var memoryUsage: nat

    /** Every range handed out so far, and every tail of a standard block given up so far. */
    ghost var given: seq<Range>
    ghost var discarded: seq<nat>

    ghost function FreeTail(): Range
      reads this
    {
      Range(allocPtr, remaining)
    }

    ghost predicate Valid()
      reads this
    {
      && BlocksOk(blocks) && memoryUsage == Usage(blocks) % TWO_64
      && remaining <= BLOCK_SIZE && GivenOk(given, blocks) && TailOk(FreeTail(), given, blocks)
      && forall d :: d in discarded ==> d <= 1030
    }

    /** How a call leaves the arena: valid, with one more range handed out, apart from the rest.
        An empty range hands out nothing. */
    twostate predicate Gave(r: Range)
      reads this
    {
      && Valid() && given == old(given) + Handed(r) && old(blocks) <= blocks && old(discarded) <= discarded
      && (r.size > 0 ==> Owned(r, blocks) && ApartFromAll(r, old(given)))
    }

    constructor ()
      ensures Valid() && given == [] && blocks == [] && memoryUsage == 0 && FreeTail() == Range(0, 0)
    {
      memoryUsage := 0;
      allocPtr := 0;
      remaining := 0;
      blocks, given, discarded := [], [], [];
    }

    method AllocateNewBlock(bytes: nat, base: nat) returns (r: nat)
      requires IsFresh(base, bytes, blocks) && memoryUsage == Usage(blocks) % TWO_64
      modifies this`blocks, this`memoryUsage
      ensures r == base && blocks == old(blocks) + [Range(base, bytes)]
      ensures memoryUsage == Usage(blocks) % TWO_64 == (old(memoryUsage) + bytes + 8) % TWO_64
    {
      hide Usage;
      UsageAdd(blocks, Range(base, bytes));
      AddToRemainder(Usage(blocks), bytes + ADDRESS_SIZE);
      r := base;
      blocks := blocks + [Range(r, bytes)];
      memoryUsage := (memoryUsage + bytes + ADDRESS_SIZE) % TWO_64;
    }

    /** Large requests get a block of their own; others start a new standard block and give up
        what is left of the current one. */
    method AllocateFallback(bytes: nat, base: nat) returns (r: nat)
      requires Valid() && (bytes <= BLOCK_SIZE / 4 ==> remaining <= 1030)
      requires IsFresh(base, if bytes > BLOCK_SIZE / 4 then bytes else BLOCK_SIZE, blocks)
      modifies this
      ensures r == base && Gave(Range(r, bytes))
      ensures blocks == old(blocks) + [Range(base, if bytes > 1024 then bytes else 4096)]
      ensures bytes > 1024 ==> FreeTail() == old(FreeTail()) && discarded == old(discarded)
      ensures bytes <= 1024 ==>
        FreeTail() == Range(base + bytes, 4096 - bytes) && discarded == old(discarded) + [old(remaining)]
    {
      hide BlocksOk, GivenOk, TailOk, Owned, ApartFromAll, IsFresh, Usage;
      ghost var block := Range(base, if bytes > BLOCK_SIZE / 4 then bytes else BLOCK_SIZE);
      ghost var mine := Range(base, bytes);
      FreshIsApart(block, blocks);
      BlocksAdd(blocks, block);
      PartOfNewBlock(given, blocks, block, mine);
      GivenMoreBlocks(given, blocks, block);
      GivenAdd(given, blocks + [block], mine);
      if bytes > BLOCK_SIZE / 4 {
        TailMoreBlocks(FreeTail(), given, blocks, block);
        r := AllocateNewBlock(bytes, base);
        given := given + Handed(mine);
        return;
      }
      discarded := discarded + [remaining];
      ghost var rest := Range(base + bytes, BLOCK_SIZE - bytes);
      NewTail(given, blocks, block, mine, rest);
      allocPtr := AllocateNewBlock(BLOCK_SIZE, base);
      r := allocPtr;
      allocPtr := allocPtr + bytes;
      remaining := BLOCK_SIZE - bytes;
      given := given + Handed(mine);
    }

    method Allocate(bytes: nat, base: nat) returns (r: nat)
      requires Valid() && bytes > 0
      requires bytes > remaining ==> IsFresh(base, if bytes > BLOCK_SIZE / 4 then bytes else BLOCK_SIZE, blocks)
      modifies this
      ensures Gave(Range(r, bytes))
      ensures bytes <= old(remaining) ==>
        r == old(allocPtr) && blocks == old(blocks) && FreeTail() == Range(r + bytes, old(remaining) - bytes)
      ensures bytes > old(remaining) ==>
        r == base && blocks == old(blocks) + [Range(base, if bytes > BLOCK_SIZE / 4 then bytes else BLOCK_SIZE)]
        && FreeTail() == if bytes > BLOCK_SIZE / 4 then old(FreeTail()) else Range(r + bytes, BLOCK_SIZE - bytes)
    {
      hide BlocksOk, GivenOk, TailOk, Owned, ApartFromAll;
      if bytes <= remaining {
        r := allocPtr;
        ghost var mine, rest := Range(r, bytes), Range(allocPtr + bytes, remaining - bytes);
        PartOfTail(given, blocks, FreeTail(), mine);
        RestOfTail(given, blocks, FreeTail(), mine, rest);
        GivenAdd(given, blocks, mine);
        allocPtr := allocPtr + bytes;
        remaining := remaining - bytes;
        given := given + Handed(mine);
        return;
      }
      r := AllocateFallback(bytes, base);
    }

    /** The 64-bit sum of the request and the slop decides. When it does not wrap around, the
        result is aligned and owned; when it does, what is returned is no owned range at all, and
        the arena goes on as if nothing had been asked for. */
    method AllocateAligned(bytes: nat, base: nat) returns (r: nat)
      requires Valid() && bytes < TWO_64
      requires (bytes + Slop(allocPtr)) % TWO_64 > remaining ==>
        IsFresh(base, if bytes > BLOCK_SIZE / 4 then bytes else BLOCK_SIZE, blocks)
      modifies this
      ensures r % ALIGN == 0 && Valid()
      ensures bytes + Slop(old(allocPtr)) < TWO_64 ==> Gave(Range(r, bytes))
      ensures bytes + Slop(old(allocPtr)) >= TWO_64 ==> given == old(given) && blocks == old(blocks)
      ensures bytes > 0 ==> (Owned(Range(r, bytes), blocks) <==> bytes + Slop(old(allocPtr)) < TWO_64)
      ensures bytes + Slop(old(allocPtr)) <= old(remaining) ==>
        r == old(allocPtr) + Slop(old(allocPtr)) && blocks == old(blocks)
        && FreeTail() == Range(r + bytes, old(remaining) - Slop(old(allocPtr)) - bytes)
      ensures old(remaining) < bytes + Slop(old(allocPtr)) < TWO_64 ==>
        r == base && blocks == old(blocks) + [Range(base, if bytes > BLOCK_SIZE / 4 then bytes else BLOCK_SIZE)]
        && FreeTail() == if bytes > BLOCK_SIZE / 4 then old(FreeTail()) else Range(r + bytes, BLOCK_SIZE - bytes)
    {
      hide BlocksOk, GivenOk, TailOk, Owned, ApartFromAll, IsFresh, Usage;
      var currentMod := allocPtr % ALIGN;
      var slop := if currentMod == 0 then 0 else ALIGN - currentMod;
      var needed := (bytes + slop) % TWO_64;
      WrappedSum(bytes, slop, remaining);
      if needed <= remaining {
        r := allocPtr + slop;
        ghost var mine, rest := Range(r, bytes), Range(allocPtr + needed, remaining - needed);
        if bytes + slop < TWO_64 {
          PartOfTail(given, blocks, FreeTail(), mine);
          RestOfTail(given, blocks, FreeTail(), mine, rest);
          GivenAdd(given, blocks, mine);
          given := given + Handed(mine);
        } else {
          PartOfTailIsTail(given, blocks, FreeTail(), rest);
          TooLargeToOwn(mine, blocks);
        }
        allocPtr := allocPtr + needed;
        remaining := remaining - needed;
      } else {
        FreshFits(Range(base, bytes), blocks);
        r := AllocateFallback(bytes, base);
      }
    }
  }

  /** A second request in a new arena whose sum wraps: it gets an address, and no memory. */
  method WrappingRequest() returns (arena: Arena, r: nat)
    ensures fresh(arena) && arena.Valid() && !Owned(Range(r, TWO_64 - 1), arena.blocks)
  {
    arena := new Arena();
    r := arena.Allocate(1, 8);
    assert arena.FreeTail() == Range(9, 4095) && Slop(9) == 7;
    r := arena.AllocateAligned(TWO_64 - 1, 0);
  }

  lemma WrappedSum(bytes: nat, slop: nat, remaining: nat)
    requires bytes < TWO_64 && slop < ALIGN
    ensures (bytes + slop) % TWO_64 == if bytes + slop < TWO_64 then bytes + slop else bytes + slop - TWO_64
  {
  }

  lemma FreshIsApart(b: Range, blocks: seq<Range>)
    requires IsFresh(b.base, b.size, blocks)
    ensures ApartFromAll(b, blocks) && b.base % ALIGN == 0
  {
  }

  lemma FreshFits(b: Range, blocks: seq<Range>)
    ensures IsFresh(b.base, b.size, blocks) ==> b.size + ALIGN <= TWO_64 && b.base % ALIGN == 0
    ensures IsFresh(b.base, BLOCK_SIZE, blocks) ==> b.base % ALIGN == 0
  {
  }

  lemma NewTail(given: seq<Range>, blocks: seq<Range>, block: Range, r: Range, rest: Range)
    requires GivenOk(given, blocks) && ApartFromAll(block, blocks)
    requires Within(r, block) && Within(rest, block) && Apart(rest, r)
    ensures TailOk(rest, given + Handed(r), blocks + [block])
  {
    PartOfNewBlock(given, blocks, block, rest);
  }
}
