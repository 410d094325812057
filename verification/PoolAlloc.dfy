/** The pool allocator with per-function accounting.

    Models modules/ngx_debug_pool/ngx_palloc.c. Addresses are numbers, 0 is NULL. What the
    operating system's allocator returns is a parameter: None, or the address of memory
    that overlaps nothing the pool already owns. */
module PoolAlloc {
  import opened Sequences

  const ALIGNMENT: nat := 8
  const POOL_ALIGNMENT: nat := 16
  const SIZEOF_POOL: nat := 96
  const SIZEOF_POOL_DATA: nat := 32
  const SIZEOF_LARGE: nat := 24
  const MIN_POOL_SIZE: nat := 144
  const MAX_ALLOC_FROM_POOL: nat := 4095
  const TWO64: nat := 0x1_0000_0000_0000_0000

  /** A block of the chain: [base, end), used up to `last`. */
  datatype Block = Block(base: nat, last: nat, end: nat, failed: nat)

  /** A record of the large list; `alloc` is 0 once freed. */
  datatype Large = Large(alloc: nat, size: nat)

  /** A small allocation handed out from block `block`. */
  datatype Small = Small(addr: nat, len: nat, block: nat)

  // ------------------------------------------------- carving one block

  /** ngx_align_ptr */
  function AlignUp(m: nat): nat {
    (m + ALIGNMENT - 1) / ALIGNMENT * ALIGNMENT
  }

  lemma AlignUpFacts(m: nat)
    ensures m <= AlignUp(m) < m + ALIGNMENT && AlignUp(m) % ALIGNMENT == 0
  {
  }

  lemma AlignUpLeast(m: nat, e: nat)
    requires m <= e && e % ALIGNMENT == 0
    ensures AlignUp(m) <= e
  {
    AlignUpFacts(m);
  }

  lemma EndAligned(base: nat, size: nat)
    requires base % POOL_ALIGNMENT == 0 && size % ALIGNMENT == 0
    ensures (base + size) % ALIGNMENT == 0
  {
  }

  /** (size_t) (end - m): the difference of two pointers, taken as unsigned. */
  function Room(end: nat, m: nat): int {
    if m <= end then end - m else end - m + TWO64
  }

  function Place(b: Block, align: bool): nat {
    if align then AlignUp(b.last) else b.last
  }

  /** The test of ngx_palloc_small. */
  predicate Fits(b: Block, size: nat, align: bool) {
    Room(b.end, Place(b, align)) >= size
  }

  datatype Request = Request(size: nat, align: bool)

  /** A block after a series of requests, those that pass the test being carved off. */
  function Carve(b: Block, requests: seq<Request>): Block
    decreases |requests|
  {
    if requests == [] then b
    else
      var r := requests[0];
      Carve(if Fits(b, r.size, r.align) then b.(last := Place(b, r.align) + r.size) else b, requests[1..])
  }

  lemma {:induction false} AlignedEndHolds(b: Block, requests: seq<Request>)
    requires b.last <= b.end && b.end % ALIGNMENT == 0
    ensures Carve(b, requests).last <= b.end
    decreases |requests|
  {
    AlignUpFacts(b.last);
    if requests != [] {
      var r := requests[0];
      AlignedEndHolds(if Fits(b, r.size, r.align) then b.(last := Place(b, r.align) + r.size) else b, requests[1..]);
    }
  }

  /** `n` one-byte requests without alignment. */
  function Bytes(n: nat): seq<Request> {
    if n == 0 then [] else [Request(1, false)] + Bytes(n - 1)
  }

  /** Fills a block to its end byte by byte, then asks for one aligned byte. */
  lemma {:induction false} UnalignedEndBreaks(b: Block)
    requires b.last <= b.end < TWO64 && b.end % ALIGNMENT != 0
    ensures Carve(b, Bytes(b.end - b.last) + [Request(1, true)]).last > b.end
    decreases b.end - b.last
  {
    var tail := [Request(1, true)];
    if b.last == b.end {
      assert Bytes(0) + tail == tail && tail[1..] == [];
      AlignUpFacts(b.last);
    } else {
      var rest := Bytes(b.end - b.last - 1);
      assert ([Request(1, false)] + rest + tail)[1..] == rest + tail;
      UnalignedEndBreaks(b.(last := b.last + 1));
    }
  }

  /** The unsigned test keeps every series of requests inside the block if and only if the
      block ends on an aligned address. */
  lemma InsideIffEndAligned(b: Block)
    requires b.last <= b.end < TWO64
    ensures b.end % ALIGNMENT == 0 <==> forall requests :: Carve(b, requests).last <= b.end
  {
    if b.end % ALIGNMENT == 0 {
      forall requests ensures Carve(b, requests).last <= b.end {
        AlignedEndHolds(b, requests);
      }
    } else {
      UnalignedEndBreaks(b);
    }
  }

  // ------------------------------------------------- the skip heuristic

  /** Failures counted for block `k` of `n` after `growths` new blocks since the last reset. */
  function FailedAfter(growths: nat, n: nat, k: nat): int {
    Min(6, Min(growths, Max(0, n - 2 - k)))
  }

  function CurrentAfter(growths: nat, n: nat): int {
    if growths < 6 then 0 else Max(0, n - 7)
  }

  ghost predicate CountsOk(blocks: seq<Block>, current: nat, growths: nat) {
    && current == CurrentAfter(growths, |blocks|)
    && forall k :: 0 <= k < |blocks| ==> blocks[k].failed == FailedAfter(growths, |blocks|, k)
  }

  /** What the counters say: never above 6, 6 exactly on the blocks before `current`, never
      rising along the chain; and a pool that was never reset scans at most 7 blocks. */
  lemma SkipHeuristic(blocks: seq<Block>, current: nat, growths: nat)
    requires blocks != [] && CountsOk(blocks, current, growths)
    ensures forall k :: 0 <= k < |blocks| ==> blocks[k].failed <= 6 && (blocks[k].failed == 6 <==> k < current)
    ensures forall j, k :: 0 <= j < k < |blocks| ==> blocks[k].failed <= blocks[j].failed
    ensures current < |blocks|
    ensures growths + 1 == |blocks| ==> current == Max(0, |blocks| - 7) && |blocks| - current <= 7
  {
  }

  // ------------------------------------------------- memory safety

  predicate Apart(a: nat, la: nat, b: nat, lb: nat) {
    a + la <= b || b + lb <= a
  }

  /** The header of a block: the first one holds the pool itself. */
  function HeaderSize(k: nat): nat {
    if k == 0 then SIZEOF_POOL else SIZEOF_POOL_DATA
  }

  ghost predicate BlockOk(b: Block, k: nat, blockSize: nat) {
    && 0 < b.base && b.base % POOL_ALIGNMENT == 0
    && b.end == b.base + blockSize
    && b.base + HeaderSize(k) <= b.last <= b.end
  }

  ghost predicate BlocksOk(blocks: seq<Block>, blockSize: nat) {
    && blocks != [] && MIN_POOL_SIZE <= blockSize && blockSize % ALIGNMENT == 0
    && (forall k :: 0 <= k < |blocks| ==> BlockOk(blocks[k], k, blockSize))
    && (forall j, k :: 0 <= j < k < |blocks| ==> Apart(blocks[j].base, blockSize, blocks[k].base, blockSize))
  }

  /** Every live small allocation lies in its block, past the header and below `last`. */
  ghost predicate SmallOk(a: Small, blocks: seq<Block>) {
    && a.block < |blocks|
    && blocks[a.block].base + HeaderSize(a.block) <= a.addr
    && a.addr + a.len <= blocks[a.block].last
  }

  ghost predicate LiveOk(live: seq<Small>, blocks: seq<Block>) {
    && (forall i :: 0 <= i < |live| ==> SmallOk(live[i], blocks))
    && (forall i, j :: 0 <= i < j < |live| ==> Apart(live[i].addr, live[i].len, live[j].addr, live[j].len))
  }

  ghost predicate LargeOk(large: seq<Large>, blocks: seq<Block>, blockSize: nat) {
    && (forall i :: 0 <= i < |large| && large[i].alloc == 0 ==> large[i].size == 0)
    && (forall i, k :: 0 <= i < |large| && large[i].alloc != 0 && 0 <= k < |blocks| ==>
          Apart(large[i].alloc, large[i].size, blocks[k].base, blockSize))
    && (forall i, j :: 0 <= i < j < |large| && large[i].alloc != 0 && large[j].alloc != 0 ==>
          Apart(large[i].alloc, large[i].size, large[j].alloc, large[j].size))
  }

  /** Memory the operating system may hand out: it touches nothing the pool owns. */
  ghost predicate Fresh(m: nat, len: nat, blocks: seq<Block>, blockSize: nat, large: seq<Large>) {
    && 0 < m
    && (forall k :: 0 <= k < |blocks| ==> Apart(m, len, blocks[k].base, blockSize))
    && (forall i :: 0 <= i < |large| && large[i].alloc != 0 ==> Apart(m, len, large[i].alloc, large[i].size))
  }

  /** Any two live allocations of a pool, small or large, are disjoint. */
  lemma LiveAllocationsDisjoint(live: seq<Small>, large: seq<Large>, blocks: seq<Block>, blockSize: nat)
    requires BlocksOk(blocks, blockSize) && LiveOk(live, blocks) && LargeOk(large, blocks, blockSize)
    ensures forall i, j :: 0 <= i < |live| && 0 <= j < |large| && large[j].alloc != 0 ==>
              Apart(live[i].addr, live[i].len, large[j].alloc, large[j].size)
    ensures forall i, j :: 0 <= i < j < |live| ==> Apart(live[i].addr, live[i].len, live[j].addr, live[j].len)
    ensures forall i, j :: 0 <= i < j < |large| && large[i].alloc != 0 && large[j].alloc != 0 ==>
              Apart(large[i].alloc, large[i].size, large[j].alloc, large[j].size)
  {
    forall i, j | 0 <= i < |live| && 0 <= j < |large| && large[j].alloc != 0
      ensures Apart(live[i].addr, live[i].len, large[j].alloc, large[j].size)
    {
      assert SmallOk(live[i], blocks);
      assert BlockOk(blocks[live[i].block], live[i].block, blockSize);
    }
  }

  /** In a block that ends on an aligned address what passes the test has room. */
  lemma PlaceFits(b: Block, k: nat, blockSize: nat, size: nat, align: bool)
    requires BlockOk(b, k, blockSize) && blockSize % ALIGNMENT == 0 && Fits(b, size, align)
    ensures 0 < b.last <= Place(b, align) && Place(b, align) + size <= b.end
    ensures align ==> Place(b, align) % ALIGNMENT == 0
  {
    AlignUpFacts(b.last);
    EndAligned(b.base, blockSize);
    AlignUpLeast(b.last, b.end);
  }

  /** Where the next allocation of a block used up to `last` goes: there, or at the next
      multiple of eight. */
  ghost predicate PlacedAt(last: nat, align: bool, a: nat) {
    if align then last <= a < last + 8 && a % 8 == 0 else a == last
  }

  ghost predicate NoRoom(b: Block, request: nat, align: bool) {
    forall a: nat :: PlacedAt(b.last, align, a) ==> b.end < a + request
  }

  /** There is one such place. */
  lemma OnePlace(b: Block, align: bool, a: nat)
    ensures PlacedAt(b.last, align, a) <==> a == Place(b, align)
  {
    AlignUpFacts(b.last);
    if align && PlacedAt(b.last, align, a) {
      OneMultiple(a, AlignUp(b.last));
    }
  }

  lemma OneMultiple(a: nat, c: nat)
    requires a % 8 == 0 && c % 8 == 0 && a < c + 8 && c < a + 8
    ensures a == c
  {
  }

  /** The unsigned test says no more and no less than that there is room. */
  lemma FitsIff(b: Block, k: nat, blockSize: nat, request: nat, align: bool)
    requires BlockOk(b, k, blockSize) && blockSize % ALIGNMENT == 0
    ensures Fits(b, request, align) <==> !NoRoom(b, request, align)
  {
    EndAligned(b.base, blockSize);
    AlignUpLeast(b.last, b.end);
    var place := Place(b, align);
    assert Fits(b, request, align) <==> place + request <= b.end;
    OnePlace(b, align, place);
    if b.end < place + request {
      forall a: nat | PlacedAt(b.last, align, a) ensures b.end < a + request {
        OnePlace(b, align, a);
      }
    } else {
      assert PlacedAt(b.last, align, place);
    }
  }

  /** No block from `current` on has room. */
  ghost predicate NoneHasRoom(blocks: seq<Block>, current: nat, request: nat, align: bool) {
    forall k :: current <= k < |blocks| ==> NoRoom(blocks[k], request, align)
  }

  /** Block `k` is the first from `current` on that has room. */
  ghost predicate FirstRoom(blocks: seq<Block>, current: nat, request: nat, align: bool, k: nat) {
    && current <= k < |blocks| && !NoRoom(blocks[k], request, align)
    && forall j :: current <= j < k ==> NoRoom(blocks[j], request, align)
  }

  /** What a small request does to the blocks: the first one with room serves it and no other
      changes; if none has room, a new block does, if there is memory for it. */
  ghost predicate ServedSmall(
    before: seq<Block>, current: nat, blockSize: nat, request: nat, align: bool, mem: Option<nat>,
    m: nat, after: seq<Block>)
  {
    && (forall k: nat :: FirstRoom(before, current, request, align, k) ==>
          && PlacedAt(before[k].last, align, m) && m + request <= before[k].end
          && after == before[k := before[k].(last := m + request)])
    && (NoneHasRoom(before, current, request, align) ==> NewBlock(before, blockSize, request, mem, m, after))
  }

  /** A block is appended with the request behind its header; the others change at most in
      their failure counts. */
  ghost predicate NewBlock(
    before: seq<Block>, blockSize: nat, request: nat, mem: Option<nat>, m: nat, after: seq<Block>)
  {
    match mem
    case None => m == 0 && after == before
    case Some(base) =>
      && PlacedAt(base + SIZEOF_POOL_DATA, true, m) && |after| == |before| + 1
      && after[|before|] == Block(base, m + request, base + blockSize, 0)
      && forall k :: 0 <= k < |before| ==> after[k] == before[k].(failed := after[k].failed)
  }

  lemma OnlyFirst(blocks: seq<Block>, current: nat, request: nat, align: bool, k: nat, l: nat)
    requires FirstRoom(blocks, current, request, align, k) && FirstRoom(blocks, current, request, align, l)
    ensures k == l
  {
  }

  /** Bumping `last` of one block keeps everything and makes room for a new allocation. */
  lemma Bumped(blocks: seq<Block>, blockSize: nat, live: seq<Small>, large: seq<Large>, current: nat, growths: nat,
               k: nat, m: nat, size: nat)
    requires BlocksOk(blocks, blockSize) && LiveOk(live, blocks) && LargeOk(large, blocks, blockSize)
    requires CountsOk(blocks, current, growths) && k < |blocks|
    requires blocks[k].last <= m && m + size <= blocks[k].end
    ensures var blocks' := blocks[k := blocks[k].(last := m + size)];
            && BlocksOk(blocks', blockSize) && LiveOk(live + [Small(m, size, k)], blocks')
            && LargeOk(large, blocks', blockSize) && CountsOk(blocks', current, growths)
  {
    var blocks' := blocks[k := blocks[k].(last := m + size)];
    var live' := live + [Small(m, size, k)];
    assert BlockOk(blocks[k], k, blockSize);
    forall i | 0 <= i < |live| ensures SmallOk(live[i], blocks') && Apart(live[i].addr, live[i].len, m, size) {
      assert SmallOk(live[i], blocks);
      assert BlockOk(blocks[live[i].block], live[i].block, blockSize);
    }
    forall i | 0 <= i < |blocks'| ensures BlockOk(blocks'[i], i, blockSize) {
      assert BlockOk(blocks[i], i, blockSize);
    }
  }

  /** Appending a fresh block whose first allocation is already carved off. */
  lemma Grown(
      blocks: seq<Block>, counted: seq<Block>, blockSize: nat,
      live: seq<Small>, large: seq<Large>, b: Block, m: nat, size: nat)
    requires BlocksOk(blocks, blockSize) && LiveOk(live, blocks) && LargeOk(large, blocks, blockSize)
    requires |counted| == |blocks|
    requires forall k :: 0 <= k < |blocks| ==> counted[k] == blocks[k].(failed := counted[k].failed)
    requires Fresh(b.base, blockSize, blocks, blockSize, large)
    requires BlockOk(b, |blocks|, blockSize) && b.base + SIZEOF_POOL_DATA <= m && m + size == b.last
    ensures var blocks' := counted + [b];
            && BlocksOk(blocks', blockSize) && LargeOk(large, blocks', blockSize)
            && LiveOk(live + [Small(m, size, |blocks|)], blocks')
  {
    var blocks' := counted + [b];
    forall i | 0 <= i < |live| ensures SmallOk(live[i], blocks') && Apart(live[i].addr, live[i].len, m, size) {
      assert SmallOk(live[i], blocks);
      assert BlockOk(blocks[live[i].block], live[i].block, blockSize);
    }
    forall i | 0 <= i < |blocks'| ensures BlockOk(blocks'[i], i, blockSize) {
      if i < |blocks| { assert BlockOk(blocks[i], i, blockSize); }
    }
    assert SmallOk(Small(m, size, |blocks|), blocks');
  }

  /** The blocks stay where they are; at most one is added, at `mem`. */
  ghost predicate SamePlaces(before: seq<Block>, after: seq<Block>, mem: Option<nat>) {
    && (|after| == |before| || (mem.Some? && |after| == |before| + 1 && after[|before|].base == mem.value))
    && forall k :: 0 <= k < |before| ==> after[k].base == before[k].base
  }

  // ------------------------------------------------- statistics

  /** What one pool has cost its stat: its bytes while it lives, nothing afterwards. */
  datatype Entry = Entry(bytes: nat, alive: bool)

  function TotalBytes(ledger: seq<Entry>): nat {
    if ledger == [] then 0 else TotalBytes(ledger[..|ledger| - 1]) + ledger[|ledger| - 1].bytes
  }

  function AliveCount(ledger: seq<Entry>): nat {
    if ledger == [] then 0 else AliveCount(ledger[..|ledger| - 1]) + if ledger[|ledger| - 1].alive then 1 else 0
  }

  lemma {:induction false} LedgerUpdate(ledger: seq<Entry>, i: nat, e: Entry)
    requires i < |ledger|
    ensures TotalBytes(ledger[i := e]) == TotalBytes(ledger) - ledger[i].bytes + e.bytes
    ensures AliveCount(ledger[i := e]) + (if ledger[i].alive then 1 else 0)
            == AliveCount(ledger) + (if e.alive then 1 else 0)
    ensures ledger[i].bytes <= TotalBytes(ledger)
    decreases |ledger|
  {
    var n := |ledger| - 1;
    if i == n {
      assert ledger[i := e][..n] == ledger[..n];
    } else {
      LedgerUpdate(ledger[..n], i, e);
      assert ledger[i := e][..n] == ledger[..n][i := e];
    }
  }

  function LargeBytes(large: seq<Large>): nat {
    if large == [] then 0 else large[0].size + LargeBytes(large[1..])
  }

  lemma {:induction false} LargeBytesUpdate(large: seq<Large>, i: nat, l: Large)
    requires i < |large|
    ensures LargeBytes(large[i := l]) == LargeBytes(large) - large[i].size + l.size
    ensures large[i].size <= LargeBytes(large)
  {
    if i == 0 {
      assert large[i := l][1..] == large[1..];
    } else {
      LargeBytesUpdate(large[1..], i - 1, l);
      assert large[i := l][1..] == large[1..][i - 1 := l];
    }
  }

  /** ngx_pool_stat_t. The ledger has one entry per pool ever created for the stat. */
  class Stat {
    var size: nat
    var num: nat
    var cnum: nat
    var lnum: nat
    ghost var ledger: seq<Entry>

    constructor ()
      ensures Valid() && ledger == [] && size == num == cnum == lnum == 0
    {
      size, num, cnum, lnum := 0, 0, 0, 0;
      ledger := [];
    }

    /** Conservation: size is the sum over the pools, cnum the number of live ones. */
    ghost predicate Valid()
      reads this
    {
      && size == TotalBytes(ledger) && cnum == AliveCount(ledger) && num == |ledger|
      && forall i :: 0 <= i < |ledger| && !ledger[i].alive ==> ledger[i].bytes == 0
    }

    /** stat->size += bytes, on behalf of the pool at `slot`. */
    method Charge(ghost slot: nat, bytes: nat)
      requires Valid() && slot < |ledger| && ledger[slot].alive
      modifies this`size, this`ledger
      ensures Valid() && ledger == old(ledger)[slot := Entry(old(ledger)[slot].bytes + bytes, true)]
    {
      LedgerUpdate(ledger, slot, Entry(ledger[slot].bytes + bytes, true));
      size := size + bytes;
      ledger := ledger[slot := Entry(ledger[slot].bytes + bytes, true)];
    }

    /** stat->size -= bytes, on behalf of the pool at `slot`. */
    method Refund(ghost slot: nat, bytes: nat)
      requires Valid() && slot < |ledger| && bytes <= ledger[slot].bytes
      modifies this`size, this`ledger
      ensures Valid() && ledger == old(ledger)[slot := Entry(old(ledger)[slot].bytes - bytes, old(ledger)[slot].alive)]
    {
      LedgerUpdate(ledger, slot, Entry(ledger[slot].bytes - bytes, ledger[slot].alive));
      size := size - bytes;
      ledger := ledger[slot := Entry(ledger[slot].bytes - bytes, ledger[slot].alive)];
    }
  }

  /** The counting loop of ngx_palloc_block, over the blocks from `current` that have a
      successor. */
  method CountFailures(blocks: seq<Block>, current: nat, ghost growths: nat)
    returns (counted: seq<Block>, next: nat)
    requires blocks != [] && CountsOk(blocks, current, growths)
    ensures |counted| == |blocks|
    ensures forall k :: 0 <= k < |blocks| ==> counted[k] == blocks[k].(failed := counted[k].failed)
    ensures forall b: Block :: b.failed == 0 ==> CountsOk(counted + [b], next, growths + 1)
  {
    SkipHeuristic(blocks, current, growths);
    counted, next := blocks, current;
    var p := current;
    while p + 1 < |counted|
      invariant current <= p < |counted| == |blocks|
      invariant forall k :: 0 <= k < |blocks| ==> counted[k] == blocks[k].(failed := counted[k].failed)
      invariant forall k :: 0 <= k < |blocks| ==>
                  counted[k].failed == blocks[k].failed + (if current <= k < p then 1 else 0)
      invariant next == if growths < 5 then current else Max(current, Min(p, |blocks| - 6))
    {
      if counted[p].failed > 4 {
        next := p + 1;
      }
      counted := counted[p := counted[p].(failed := counted[p].failed + 1)];
      p := p + 1;
    }
  }

  /** The loop of ngx_palloc_small: the first block from `current` on that passes the test, or
      one past the last. */
  method FindRoom(blocks: seq<Block>, current: nat, ghost blockSize: nat, request: nat, align: bool)
    returns (p: nat, ghost scanned: nat)
    requires BlocksOk(blocks, blockSize) && current < |blocks|
    ensures if p == |blocks| then NoneHasRoom(blocks, current, request, align)
            else FirstRoom(blocks, current, request, align, p) && Fits(blocks[p], request, align)
    ensures scanned <= |blocks| - current
  {
    p, scanned := current, 0;
    while p < |blocks|
      invariant current <= p <= |blocks| && scanned == p - current
      invariant forall j :: current <= j < p ==> NoRoom(blocks[j], request, align)
    {
      scanned := scanned + 1;
      assert BlockOk(blocks[p], p, blockSize);
      FitsIff(blocks[p], p, blockSize, request, align);
      if Fits(blocks[p], request, align) {
        return;
      }
      p := p + 1;
    }
  }

  /** ngx_pool_t */
  class Pool {
    const blockSize: nat
    const max: nat
    const stat: Stat
    var size: nat
    var blocks: seq<Block>
    var current: nat
    var large: seq<Large>

    /** Small allocations since creation or the last reset. */
    ghost var live: seq<Small>
    /** Blocks added since creation or the last reset, and whether there was a reset. */
    ghost var growths: nat
    ghost var wasReset: bool
    /** This pool's place in its stat's ledger. */
    ghost const slot: nat

    ghost predicate MemoryOk()
      reads this
    {
      && BlocksOk(blocks, blockSize) && LiveOk(live, blocks) && LargeOk(large, blocks, blockSize)
      && CountsOk(blocks, current, growths) && (!wasReset ==> growths + 1 == |blocks|)
      && max == Min(blockSize - SIZEOF_POOL, MAX_ALLOC_FROM_POOL)
      && size == |blocks| * blockSize
    }

    /** Bytes of blocks and of live large allocations. */
    ghost function Footprint(): nat
      reads this
    {
      size + LargeBytes(large)
    }

    ghost predicate Valid()
      reads this, stat
    {
      && MemoryOk()
      && stat.Valid() && slot < |stat.ledger| && stat.ledger[slot] == Entry(Footprint(), true)
    }

    /** __ngx_create_pool, given the memory for the first block. */
    constructor (wanted: nat, mem: nat, stat: Stat)
      requires stat.Valid() && wanted % ALIGNMENT == 0
      requires 0 < mem && mem % POOL_ALIGNMENT == 0
      modifies stat
      ensures Valid() && this.stat == stat && slot == |old(stat.ledger)|
      ensures live == [] && large == [] && !wasReset && |blocks| == 1
      ensures blockSize == Max(wanted, MIN_POOL_SIZE) && size == blockSize && current == 0
      ensures blocks == [Block(mem, mem + SIZEOF_POOL, mem + blockSize, 0)]
      ensures stat.ledger == old(stat.ledger) + [Entry(blockSize, true)]
      ensures stat.lnum == old(stat.lnum)
    {
      var bytes := if wanted < MIN_POOL_SIZE then MIN_POOL_SIZE else wanted;
      this.stat := stat;
      blockSize, size := bytes, bytes;
      blocks := [Block(mem, mem + SIZEOF_POOL, mem + bytes, 0)];
      max := if bytes - SIZEOF_POOL < MAX_ALLOC_FROM_POOL then bytes - SIZEOF_POOL else MAX_ALLOC_FROM_POOL;
      current, large := 0, [];
      live, growths, wasReset, slot := [], 0, false, |stat.ledger|;
      new;
      stat.size := stat.size + bytes;
      stat.num := stat.num + 1;
      stat.cnum := stat.cnum + 1;
      stat.ledger := stat.ledger + [Entry(bytes, true)];
      assert stat.ledger[..|stat.ledger| - 1] == old(stat.ledger);
    }

    /** ngx_palloc_block: one more block, with the request at its front. */
    method PallocBlock(request: nat, mem: Option<nat>) returns (m: nat)
      requires Valid() && request <= max
      requires mem.Some? ==> mem.value % POOL_ALIGNMENT == 0 && Fresh(mem.value, blockSize, blocks, blockSize, large)
      modifies this`size, this`blocks, this`current, this`live, this`growths, stat`size, stat`ledger
      ensures Valid()
      ensures m == 0 <==> mem.None?
      ensures m == 0 ==> blocks == old(blocks) && live == old(live) && size == old(size)
      ensures m == 0 ==> growths == old(growths) && stat.ledger == old(stat.ledger)
      ensures m != 0 ==> m % ALIGNMENT == 0 && live == old(live) + [Small(m, request, old(|blocks|))]
      ensures m != 0 ==> |blocks| == old(|blocks|) + 1 && growths == old(growths) + 1
      ensures NewBlock(old(blocks), blockSize, request, mem, m, blocks)
      ensures SamePlaces(old(blocks), blocks, mem)
      ensures stat.ledger == old(stat.ledger)[slot := Entry(Footprint(), true)]
    {
      if mem.None? {
        return 0;
      }
      var base := mem.value;
      stat.Charge(slot, blockSize);
      m := AppendBlock(base, request);
    }

    /** The part of ngx_palloc_block that touches the pool only. */
    method AppendBlock(base: nat, request: nat) returns (m: nat)
      requires MemoryOk() && request <= max
      requires base % POOL_ALIGNMENT == 0 && Fresh(base, blockSize, blocks, blockSize, large)
      modifies this`size, this`blocks, this`current, this`live, this`growths
      ensures MemoryOk()
      ensures m != 0 && m % ALIGNMENT == 0 && live == old(live) + [Small(m, request, old(|blocks|))]
      ensures |blocks| == old(|blocks|) + 1 && growths == old(growths) + 1 && size == old(size) + blockSize
      ensures NewBlock(old(blocks), blockSize, request, Some(base), m, blocks)
      ensures SamePlaces(old(blocks), blocks, Some(base))
    {
      AlignUpFacts(base + SIZEOF_POOL_DATA);
      m := AlignUp(base + SIZEOF_POOL_DATA);
      var b := Block(base, m + request, base + blockSize, 0);
      var counted, next := CountFailures(blocks, current, growths);
      Grown(blocks, counted, blockSize, live, large, b, m, request);
      live := live + [Small(m, request, |blocks|)];
      MulStep(|blocks|, blockSize);
      size := size + blockSize;
      blocks, current := counted + [b], next;
      growths := growths + 1;
    }

    /** ngx_palloc_small. `scanned` is the number of blocks looked at. */
    method PallocSmall(request: nat, align: bool, mem: Option<nat>) returns (m: nat, ghost scanned: nat)
      requires Valid() && request <= max
      requires mem.Some? ==> mem.value % POOL_ALIGNMENT == 0 && Fresh(mem.value, blockSize, blocks, blockSize, large)
      modifies this`size, this`blocks, this`current, this`live, this`growths, stat`size, stat`ledger
      ensures Valid()
      ensures m != 0 <==> mem.Some? || !NoneHasRoom(old(blocks), old(current), request, align)
      ensures m == 0 ==> live == old(live) && blocks == old(blocks)
      ensures m != 0 ==> exists k :: live == old(live) + [Small(m, request, k)]
      ensures m != 0 && align ==> m % ALIGNMENT == 0
      ensures ServedSmall(old(blocks), old(current), blockSize, request, align, mem, m, blocks)
      ensures |blocks| == old(|blocks|) ==> size == old(size) && current == old(current)
      ensures SamePlaces(old(blocks), blocks, mem)
      ensures stat.ledger == old(stat.ledger)[slot := Entry(Footprint(), true)]
      ensures scanned <= old(|blocks| - current) && (!wasReset ==> scanned <= 7)
    {
      SkipHeuristic(blocks, current, growths);
      var p;
      p, scanned := FindRoom(blocks, current, blockSize, request, align);
      if p == |blocks| {
        m := PallocBlock(request, mem);
        return;
      }
      forall k: nat | FirstRoom(blocks, current, request, align, k) ensures k == p {
        OnlyFirst(blocks, current, request, align, k, p);
      }
      m := CarveBlock(p, request, align);
    }

    /** Takes `request` bytes off block `p`, which passed the test. */
    method CarveBlock(p: nat, request: nat, align: bool) returns (m: nat)
      requires MemoryOk() && p < |blocks| && Fits(blocks[p], request, align)
      modifies this`blocks, this`live
      ensures MemoryOk() && |blocks| == old(|blocks|) && SamePlaces(old(blocks), blocks, None)
      ensures m != 0 && live == old(live) + [Small(m, request, p)]
      ensures align ==> m % ALIGNMENT == 0
      ensures PlacedAt(old(blocks)[p].last, align, m) && m + request <= old(blocks)[p].end
      ensures blocks == old(blocks)[p := old(blocks)[p].(last := m + request)]
    {
      assert BlockOk(blocks[p], p, blockSize);
      OnePlace(blocks[p], align, Place(blocks[p], align));
      PlaceFits(blocks[p], p, blockSize, request, align);
      m := Place(blocks[p], align);
      Bumped(blocks, blockSize, live, large, current, growths, p, m, request);
      live := live + [Small(m, request, p)];
      blocks := blocks[p := blocks[p].(last := m + request)];
    }

    /** Records a large allocation at the front of the list; the record itself is a small
        allocation of the pool. */
    method PushLarge(addr: nat, bytes: nat, mem: Option<nat>) returns (ok: bool)
      requires Valid() && Fresh(addr, bytes, blocks, blockSize, large)
      requires mem.Some? ==> mem.value % POOL_ALIGNMENT == 0 && Fresh(mem.value, blockSize, blocks, blockSize, large)
                             && Apart(mem.value, blockSize, addr, bytes)
      modifies this`size, this`blocks, this`current, this`live, this`growths, this`large, stat`size, stat`ledger
      ensures Valid()
      ensures !ok ==> mem.None? && large == old(large) && live == old(live)
      ensures ok <==> mem.Some? || !NoneHasRoom(old(blocks), old(current), SIZEOF_LARGE, true)
      ensures ok ==> large == [Large(addr, bytes)] + old(large)
      ensures ok ==> exists m, k :: live == old(live) + [Small(m, SIZEOF_LARGE, k)]
      ensures stat.ledger == old(stat.ledger)[slot := Entry(Footprint(), true)]
    {
      ok := AllocRecord(mem);
      if !ok {
        return;
      }
      StillFresh(addr, bytes, old(blocks), blocks, blockSize, mem, large);
      LargePushed(large, blocks, blockSize, Large(addr, bytes));
      large := [Large(addr, bytes)] + large;
      stat.Charge(slot, bytes);
    }

    /** The small allocation for a record of the large list. */
    method AllocRecord(mem: Option<nat>) returns (ok: bool)
      requires Valid()
      requires mem.Some? ==> mem.value % POOL_ALIGNMENT == 0 && Fresh(mem.value, blockSize, blocks, blockSize, large)
      modifies this`size, this`blocks, this`current, this`live, this`growths, stat`size, stat`ledger
      ensures Valid() && SamePlaces(old(blocks), blocks, mem)
      ensures ok <==> mem.Some? || !NoneHasRoom(old(blocks), old(current), SIZEOF_LARGE, true)
      ensures if ok then exists m, k :: live == old(live) + [Small(m, SIZEOF_LARGE, k)] else live == old(live)
      ensures stat.ledger == old(stat.ledger)[slot := Entry(Footprint(), true)]
    {
      var m, _ := PallocSmall(SIZEOF_LARGE, true, mem);
      ok := m != 0;
    }

    /** ngx_palloc_large. `addr` is what the system's allocator returns. */
    method PallocLarge(bytes: nat, addr: Option<nat>, mem: Option<nat>) returns (p: nat)
      requires Valid()
      requires addr.Some? ==> Fresh(addr.value, bytes, blocks, blockSize, large)
      requires mem.Some? ==> mem.value % POOL_ALIGNMENT == 0 && Fresh(mem.value, blockSize, blocks, blockSize, large)
                             && (addr.Some? ==> Apart(mem.value, blockSize, addr.value, bytes))
      modifies this`size, this`blocks, this`current, this`live, this`growths, this`large,
               stat`size, stat`ledger, stat`lnum
      ensures Valid() && stat.lnum == old(stat.lnum) + 1
      ensures p == 0 ==> large == old(large) && live == old(live) && (addr.None? || mem.None?)
      ensures p != 0 ==> addr == Some(p) && Recorded(old(large), large, Large(p, bytes))
      ensures p != 0 <==> addr.Some? && (FreedRecord(old(large)) || mem.Some?
                                         || !NoneHasRoom(old(blocks), old(current), SIZEOF_LARGE, true))
      ensures KeptLive(old(live), live)
      ensures stat.ledger == old(stat.ledger)[slot := Entry(Footprint(), true)]
    {
      stat.lnum := stat.lnum + 1;
      if addr.None? {
        return 0;
      }
      p := addr.value;
      var i := 0;
      while i < |large| && i <= 4 && large[i].alloc != 0
        invariant 0 <= i <= |large| && i <= 5
        invariant forall j :: 0 <= j < i ==> large[j].alloc != 0
      {
        i := i + 1;
      }
      if i < |large| && i <= 4 {
        LargeReused(large, blocks, blockSize, i, Large(p, bytes));
        large := large[i := Large(p, bytes)];
        stat.Charge(slot, bytes);
        return;
      }
      var ok := PushLarge(p, bytes, mem);
      if !ok {
        return 0;
      }
    }

    /** ngx_pmemalign: aligned memory, never reusing a record. */
    method Pmemalign(bytes: nat, alignment: nat, addr: Option<nat>, mem: Option<nat>) returns (p: nat)
      requires Valid() && 0 < alignment
      requires addr.Some? ==> addr.value % alignment == 0 && Fresh(addr.value, bytes, blocks, blockSize, large)
      requires mem.Some? ==> mem.value % POOL_ALIGNMENT == 0 && Fresh(mem.value, blockSize, blocks, blockSize, large)
                             && (addr.Some? ==> Apart(mem.value, blockSize, addr.value, bytes))
      modifies this`size, this`blocks, this`current, this`live, this`growths, this`large, stat`size, stat`ledger
      ensures Valid()
      ensures p == 0 ==> large == old(large) && live == old(live) && (addr.None? || mem.None?)
      ensures p != 0 ==> p % alignment == 0 && addr == Some(p) && large == [Large(p, bytes)] + old(large)
      ensures p != 0 <==> addr.Some? && (mem.Some? || !NoneHasRoom(old(blocks), old(current), SIZEOF_LARGE, true))
      ensures KeptLive(old(live), live)
      ensures stat.ledger == old(stat.ledger)[slot := Entry(Footprint(), true)]
    {
      if addr.None? {
        return 0;
      }
      var ok := PushLarge(addr.value, bytes, mem);
      p := if ok then addr.value else 0;
    }

    /** ngx_palloc and ngx_pnalloc: `align` tells them apart. */
    method Palloc(request: nat, align: bool, addr: Option<nat>, mem: Option<nat>) returns (p: nat)
      requires Valid()
      requires addr.Some? ==> Fresh(addr.value, request, blocks, blockSize, large)
      requires mem.Some? ==> mem.value % POOL_ALIGNMENT == 0 && Fresh(mem.value, blockSize, blocks, blockSize, large)
                             && (addr.Some? ==> Apart(mem.value, blockSize, addr.value, request))
      modifies this`size, this`blocks, this`current, this`live, this`growths, this`large,
               stat`size, stat`ledger, stat`lnum
      ensures Valid()
      ensures p == 0 ==> large == old(large) && live == old(live) && (addr.None? || mem.None?)
      ensures p != 0 && request <= max ==> large == old(large) && (align ==> p % ALIGNMENT == 0)
                                           && exists k :: live == old(live) + [Small(p, request, k)]
      ensures request <= max ==> ServedSmall(old(blocks), old(current), blockSize, request, align, mem, p, blocks)
      ensures request > max ==>
                (p != 0 <==> addr.Some? && (FreedRecord(old(large)) || mem.Some?
                                            || !NoneHasRoom(old(blocks), old(current), SIZEOF_LARGE, true)))
      ensures p != 0 && request > max ==>
                addr == Some(p) && Recorded(old(large), large, Large(p, request)) && KeptLive(old(live), live)
      ensures stat.ledger == old(stat.ledger)[slot := Entry(Footprint(), true)]
    {
      if request <= max {
        ghost var scanned;
        p, scanned := PallocSmall(request, align, mem);
      } else {
        p := PallocLarge(request, addr, mem);
      }
    }

    /** ngx_pfree: frees the first large allocation at `p`; small ones are declined, and NULL
        is taken for a record that was freed before. */
    method Pfree(p: nat) returns (ok: bool)
      requires Valid()
      modifies this`large, stat`size, stat`ledger
      ensures Valid()
      ensures ok <==> exists i :: 0 <= i < |old(large)| && old(large)[i].alloc == p
      ensures !ok ==> large == old(large)
      ensures ok ==> exists i :: 0 <= i < |old(large)| && old(large)[i].alloc == p
                                 && large == old(large)[i := Large(0, 0)]
      ensures stat.ledger == old(stat.ledger)[slot := Entry(Footprint(), true)]
    {
      var i := 0;
      while i < |large| && large[i].alloc != p
        invariant 0 <= i <= |large|
        invariant forall j :: 0 <= j < i ==> large[j].alloc != p
      {
        i := i + 1;
      }
      if i == |large| {
        return false;
      }
      LargeBytesUpdate(large, i, Large(0, 0));
      stat.Refund(slot, large[i].size);
      large := large[i := Large(0, 0)];
      return true;
    }

    /** The loop of ngx_reset_pool and ngx_destroy_pool over the large list. */
    method FreeLarges()
      requires Valid()
      modifies this`large, stat`size, stat`ledger
      ensures Valid() && large == []
      ensures stat.ledger == old(stat.ledger)[slot := Entry(size, true)]
    {
      while large != []
        invariant Valid()
        invariant stat.ledger == old(stat.ledger)[slot := Entry(Footprint(), true)]
        decreases |large|
      {
        if large[0].alloc != 0 {
          stat.Refund(slot, large[0].size);
        }
        LargeTail(large, blocks, blockSize);
        large := large[1..];
      }
    }

    /** ngx_reset_pool: all allocations end, the blocks stay. */
    method Reset()
      requires Valid()
      modifies this`large, this`blocks, this`current, this`live, this`growths, this`wasReset, stat`size, stat`ledger
      ensures Valid() && live == [] && large == [] && current == 0 && wasReset && |blocks| == old(|blocks|)
      ensures forall k :: 0 <= k < |blocks| ==>
                blocks[k] == old(blocks)[k].(last := old(blocks)[k].base + SIZEOF_POOL, failed := 0)
      ensures stat.ledger == old(stat.ledger)[slot := Entry(size, true)]
    {
      FreeLarges();
      var after := blocks;
      var k := 0;
      while k < |after|
        invariant 0 <= k <= |after| == |blocks|
        invariant forall j :: 0 <= j < k ==> after[j] == blocks[j].(last := blocks[j].base + SIZEOF_POOL, failed := 0)
        invariant forall j :: k <= j < |blocks| ==> after[j] == blocks[j]
      {
        after := after[k := after[k].(last := after[k].base + SIZEOF_POOL, failed := 0)];
        k := k + 1;
      }
      WasReset(blocks, after, blockSize);
      blocks, current := after, 0;
      live, growths, wasReset := [], 0, true;
    }

    /** ngx_destroy_pool: the stat gets everything back and counts one pool less. */
    method Destroy()
      requires Valid()
      modifies this`large, stat`size, stat`ledger, stat`cnum
      ensures stat.Valid()
      ensures stat.ledger == old(stat.ledger)[slot := Entry(0, false)]
    {
      FreeLarges();
      LedgerUpdate(stat.ledger, slot, Entry(0, false));
      stat.size := stat.size - size;
      stat.cnum := stat.cnum - 1;
      stat.ledger := stat.ledger[slot := Entry(0, false)];
    }
  }

  /** The small allocations stay; at most the record of a large one is added. */
  ghost predicate KeptLive(before: seq<Small>, after: seq<Small>) {
    after == before || exists m, k :: after == before + [Small(m, SIZEOF_LARGE, k)]
  }

  /** One of the first five records has been freed. */
  ghost predicate FreedRecord(large: seq<Large>) {
    exists i :: 0 <= i < |large| && i <= 4 && large[i].alloc == 0
  }

  /** A large allocation was recorded: in the first freed record among the first five, or, if
      there is none, in a new one at the front. */
  ghost predicate Recorded(before: seq<Large>, after: seq<Large>, l: Large) {
    if FreedRecord(before) then
      exists i :: 0 <= i < |before| && i <= 4 && before[i].alloc == 0 && after == before[i := l]
                  && forall j :: 0 <= j < i ==> before[j].alloc != 0
    else after == [l] + before
  }

  lemma StillFresh(
      addr: nat, bytes: nat, before: seq<Block>, after: seq<Block>, blockSize: nat, mem: Option<nat>, large: seq<Large>)
    requires Fresh(addr, bytes, before, blockSize, large) && SamePlaces(before, after, mem)
    requires mem.Some? ==> Apart(mem.value, blockSize, addr, bytes)
    ensures Fresh(addr, bytes, after, blockSize, large)
  {
  }

  lemma LargePushed(large: seq<Large>, blocks: seq<Block>, blockSize: nat, l: Large)
    requires LargeOk(large, blocks, blockSize) && Fresh(l.alloc, l.size, blocks, blockSize, large)
    ensures LargeOk([l] + large, blocks, blockSize)
    ensures LargeBytes([l] + large) == l.size + LargeBytes(large)
  {
    assert ([l] + large)[1..] == large;
  }

  lemma LargeReused(large: seq<Large>, blocks: seq<Block>, blockSize: nat, i: nat, l: Large)
    requires LargeOk(large, blocks, blockSize) && Fresh(l.alloc, l.size, blocks, blockSize, large)
    requires i < |large| && large[i].alloc == 0
    ensures LargeOk(large[i := l], blocks, blockSize)
    ensures LargeBytes(large[i := l]) == l.size + LargeBytes(large)
  {
    LargeBytesUpdate(large, i, l);
  }

  lemma LargeTail(large: seq<Large>, blocks: seq<Block>, blockSize: nat)
    requires LargeOk(large, blocks, blockSize) && large != []
    ensures LargeOk(large[1..], blocks, blockSize)
    ensures LargeBytes(large) == large[0].size + LargeBytes(large[1..])
  {
  }

  lemma WasReset(before: seq<Block>, after: seq<Block>, blockSize: nat)
    requires BlocksOk(before, blockSize) && |after| == |before|
    requires forall j :: 0 <= j < |before| ==> after[j] == before[j].(last := before[j].base + SIZEOF_POOL, failed := 0)
    ensures BlocksOk(after, blockSize) && LiveOk([], after) && LargeOk([], after, blockSize) && CountsOk(after, 0, 0)
  {
    forall k | 0 <= k < |after| ensures BlockOk(after[k], k, blockSize) {
      assert BlockOk(before[k], k, blockSize);
    }
  }

  lemma MulStep(n: nat, b: nat)
    ensures (n + 1) * b == n * b + b
  {
  }

  // ------------------------------------------------- all pools of one stat

  /** `pools` are all pools ever created for the stat, in order; the live ones are valid. */
  ghost predicate Accounted(stat: Stat, pools: seq<Pool>)
    reads stat, pools
  {
    && stat.Valid() && |pools| == |stat.ledger|
    && forall i :: 0 <= i < |pools| ==>
         pools[i].stat == stat && pools[i].slot == i && (stat.ledger[i].alive ==> pools[i].Valid())
  }

  ghost function LiveFootprints(ledger: seq<Entry>, pools: seq<Pool>): nat
    requires |pools| == |ledger|
    reads pools
  {
    if pools == [] then 0
    else
      var n := |pools| - 1;
      LiveFootprints(ledger[..n], pools[..n]) + if ledger[n].alive then pools[n].Footprint() else 0
  }

  lemma {:induction false} LedgerIsFootprints(ledger: seq<Entry>, pools: seq<Pool>)
    requires |pools| == |ledger|
    requires forall i :: 0 <= i < |pools| ==> ledger[i].bytes == if ledger[i].alive then pools[i].Footprint() else 0
    ensures TotalBytes(ledger) == LiveFootprints(ledger, pools)
    decreases |pools|
  {
    if pools != [] {
      LedgerIsFootprints(ledger[..|ledger| - 1], pools[..|pools| - 1]);
    }
  }

  /** Conservation: a stat's size is the sum, over its live pools, of their block bytes and
      live large bytes, and cnum is the number of live pools. */
  lemma StatConservation(stat: Stat, pools: seq<Pool>)
    requires Accounted(stat, pools)
    ensures stat.size == LiveFootprints(stat.ledger, pools)
    ensures stat.cnum == AliveCount(stat.ledger) && stat.num == |pools|
  {
    LedgerIsFootprints(stat.ledger, pools);
  }

  /** One operation on a pool, with what the system's allocator answers. */
  datatype Op =
    | Alloc(request: nat, align: bool, addr: Option<nat>, mem: Option<nat>)
    | Align(request: nat, alignment: nat, addr: Option<nat>, mem: Option<nat>)
    | Free(p: nat)
    | ResetAll
    | DestroyAll

  /** The system's allocator hands out memory the pool does not own, blocks aligned. */
  ghost predicate OpOk(op: Op, p: Pool)
    reads p
  {
    match op
    case Alloc(n, _, addr, mem) => AnswersOk(n, addr, mem, p)
    case Align(n, a, addr, mem) => 0 < a && (addr.Some? ==> addr.value % a == 0) && AnswersOk(n, addr, mem, p)
    case _ => true
  }

  ghost predicate AnswersOk(n: nat, addr: Option<nat>, mem: Option<nat>, p: Pool)
    reads p
  {
    && (addr.Some? ==> Fresh(addr.value, n, p.blocks, p.blockSize, p.large))
    && (mem.Some? ==>
          && mem.value % POOL_ALIGNMENT == 0 && Fresh(mem.value, p.blockSize, p.blocks, p.blockSize, p.large)
          && (addr.Some? ==> Apart(mem.value, p.blockSize, addr.value, n)))
  }

  /** Conservation over runs, first half: creating a pool keeps the books. */
  method CreatePool(stat: Stat, ghost pools: seq<Pool>, wanted: nat, mem: nat) returns (p: Pool)
    requires Accounted(stat, pools) && wanted % ALIGNMENT == 0 && 0 < mem && mem % POOL_ALIGNMENT == 0
    modifies stat
    ensures fresh(p) && Accounted(stat, pools + [p])
    ensures stat.ledger == old(stat.ledger) + [Entry(p.blockSize, true)]
  {
    p := new Pool(wanted, mem, stat);
    ghost var all := pools + [p];
    forall i | 0 <= i < |all|
      ensures all[i].stat == stat && all[i].slot == i && (stat.ledger[i].alive ==> all[i].Valid())
    {
      if i < |pools| {
        assert stat.ledger[i] == old(stat.ledger[i]);
      }
    }
  }

  /** Second half: so does every operation on any of the live pools. */
  method UsePool(stat: Stat, ghost pools: seq<Pool>, ghost i: nat, p: Pool, op: Op)
    requires Accounted(stat, pools) && i < |pools| && p == pools[i] && stat.ledger[i].alive && OpOk(op, p)
    modifies stat, p
    ensures Accounted(stat, pools)
    ensures stat.ledger == old(stat.ledger)[i := stat.ledger[i]]
    ensures stat.ledger[i].alive <==> !op.DestroyAll?
  {
    match op {
      case Alloc(n, align, addr, mem) => var _ := p.Palloc(n, align, addr, mem);
      case Align(n, alignment, addr, mem) => var _ := p.Pmemalign(n, alignment, addr, mem);
      case Free(q) => var _ := p.Pfree(q);
      case ResetAll => p.Reset();
      case DestroyAll => p.Destroy();
    }
    forall j | 0 <= j < |pools| && stat.ledger[j].alive ensures pools[j].Valid() {
      if j != i {
        assert stat.ledger[j] == old(stat.ledger[j]) && pools[j] != p;
      }
    }
  }

  /** One pool is used, the next one ends, and the first is reset. */
  method UseTwo(stat: Stat, ghost pools: seq<Pool>, ghost n: nat, p: Pool, q: Pool, freed: nat)
    requires Accounted(stat, pools) && n + 1 < |pools| && p == pools[n] && q == pools[n + 1]
    requires stat.ledger[n].alive && stat.ledger[n + 1].alive
    modifies stat, p, q
    ensures Accounted(stat, pools) && p.Valid()
    ensures stat.ledger == old(stat.ledger)[n := Entry(p.Footprint(), true)][n + 1 := Entry(0, false)]
  {
    UsePool(stat, pools, n, p, Free(freed));
    UsePool(stat, pools, n + 1, q, DestroyAll);
    UsePool(stat, pools, n, p, ResetAll);
    assert stat.ledger[n] == Entry(p.Footprint(), true) && stat.ledger[n + 1] == Entry(0, false);
  }

  /** A run over two pools of one stat: the second ends while the first goes on, and in the
      end the stat is charged with the first pool's bytes and counts one pool more. */
  method TwoPools(stat: Stat, ghost pools: seq<Pool>, wanted: nat, mem: nat, mem': nat, freed: nat)
    returns (p: Pool, q: Pool)
    requires Accounted(stat, pools) && wanted % ALIGNMENT == 0
    requires 0 < mem && mem % POOL_ALIGNMENT == 0 && 0 < mem' && mem' % POOL_ALIGNMENT == 0
    modifies stat
    ensures fresh(p) && fresh(q) && Accounted(stat, pools + [p] + [q]) && p.Valid()
    ensures stat.size == old(stat.size) + p.Footprint() && stat.cnum == old(stat.cnum) + 1
  {
    ghost var ledger, n := stat.ledger, |pools|;
    p := CreatePool(stat, pools, wanted, mem);
    q := CreatePool(stat, pools + [p], wanted, mem');
    UseTwo(stat, pools + [p] + [q], n, p, q, freed);
    LedgerGrows(ledger, Entry(p.Footprint(), true), Entry(0, false));
    assert stat.ledger == ledger + [Entry(p.Footprint(), true)] + [Entry(0, false)];
  }

  lemma LedgerGrows(ledger: seq<Entry>, e: Entry, f: Entry)
    ensures TotalBytes(ledger + [e] + [f]) == TotalBytes(ledger) + e.bytes + f.bytes
    ensures AliveCount(ledger + [e] + [f])
            == AliveCount(ledger) + (if e.alive then 1 else 0) + (if f.alive then 1 else 0)
  {
    assert (ledger + [e] + [f])[..|ledger| + 1] == ledger + [e];
    assert (ledger + [e])[..|ledger|] == ledger;
  }
}
