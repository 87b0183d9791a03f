/** The skip list's bump allocator, and the tags that it puts on what it hands out. */
module Arenas {
  import opened Options
  import opened Mte

  const BLOCK_SIZE: nat := 4096
  const ALIGN: nat := 16
  const PTR_SIZE: nat := 8

  datatype Block = Block(start: nat, size: nat)

  /** What was handed out; tag is None for memory that Allocate returned. */
  datatype Region = Region(start: nat, size: nat, tag: Option<Tag>)

  predicate Apart(a: nat, sizeA: nat, b: nat, sizeB: nat) { a + sizeA <= b || b + sizeB <= a }

  predicate Inside(r: Region, b: Block) { b.start <= r.start && r.start + r.size <= b.start + b.size }

  function Usage(blocks: seq<Block>): nat {
    if blocks == [] then 0 else Usage(blocks[..|blocks| - 1]) + blocks[|blocks| - 1].size + PTR_SIZE
  }

  /** bytes plus the slop that AllocateAligned adds. */
  function Needed(bytes: nat): nat { bytes + bytes % ALIGN }

  /** The slop is added where it should be filled up to the next multiple: the result is a
      multiple of 16 exactly for multiples of 8. */
  lemma NeededIsWholeIff(bytes: nat)
    ensures Needed(bytes) % ALIGN == 0 <==> bytes % 8 == 0
    ensures bytes <= Needed(bytes) < bytes + ALIGN
  {}

  /** An address that operator new may deliver: aligned, and clear of all blocks it has
      delivered before. */
  predicate FreshAddress(at: nat, size: nat, blocks: seq<Block>) {
    at > 0 && at % ALIGN == 0 && forall i | 0 <= i < |blocks| :: Apart(at, size, blocks[i].start, blocks[i].size)
  }

  lemma FreshIsAligned(at: nat, size: nat, blocks: seq<Block>)
    requires FreshAddress(at, size, blocks)
    ensures at > 0 && at % ALIGN == 0
  {}

  ghost predicate BlocksApart(blocks: seq<Block>) {
    && (forall i | 0 <= i < |blocks| :: blocks[i].start > 0 && blocks[i].start % ALIGN == 0)
    && (forall i, j | 0 <= i < j < |blocks| :: Apart(blocks[i].start, blocks[i].size, blocks[j].start, blocks[j].size))
  }

  lemma OneMoreBlock(blocks: seq<Block>, at: nat, size: nat)
    requires BlocksApart(blocks) && FreshAddress(at, size, blocks)
    ensures BlocksApart(blocks + [Block(at, size)])
  {}

  /** Tagged regions are made of whole granules, all of which carry the region's tag. */
  ghost predicate TagsMatch(regions: seq<Region>, tags: map<nat, Tag>) {
    forall i | 0 <= i < |regions| && regions[i].tag.Some? ::
      Whole(regions[i].start, regions[i].size) && Matches(tags, regions[i].start, regions[i].size, regions[i].tag.value)
  }

  class Arena {
    var allocPtr: nat
    var remaining: nat
    var blocks: seq<Block>
    var memoryUsage: nat
    const memory: TagMemory
    /** what was handed out so far, and what was left over in the standard blocks that were given up */
    ghost var regions: seq<Region>
    ghost var wasted: seq<nat>
    /** which block each region lies in, and the block that is in use if there is one */
    ghost var home: seq<nat>
    ghost var current: Option<nat>

    ghost predicate BlocksOk()
      reads this
    {
      && BlocksApart(blocks)
      && (match current
          case None => remaining == 0
          case Some(c) => c < |blocks| && blocks[c].size == BLOCK_SIZE && blocks[c].start <= allocPtr
                          && allocPtr + remaining == blocks[c].start + BLOCK_SIZE)
    }

    /** Every region lies in a block, apart from the others and from the free rest of the block in use. */
    ghost predicate RegionsOk()
      requires BlocksOk()
      reads this
    {
      && |home| == |regions|
      && (forall i | 0 <= i < |regions| ::
          home[i] < |blocks| && Inside(regions[i], blocks[home[i]]) && regions[i].size > 0)
      && (forall i, j | 0 <= i < j < |regions| ::
          Apart(regions[i].start, regions[i].size, regions[j].start, regions[j].size))
      && (forall i | 0 <= i < |regions| && current == Some(home[i]) :: regions[i].start + regions[i].size <= allocPtr)
    }

    ghost predicate Valid()
      reads this, memory
    {
      && BlocksOk() && RegionsOk() && TagsMatch(regions, memory.tags)
      && memoryUsage == Usage(blocks)
      && (forall i | 0 <= i < |wasted| :: wasted[i] < BLOCK_SIZE / 4)
    }

    /** Holds as long as every request is a multiple of 8 bytes for AllocateAligned. */
    ghost predicate Aligned()
      reads this
    {
      allocPtr % ALIGN == 0
    }

    constructor ()
      ensures Valid() && Aligned() && regions == [] && blocks == [] && memoryUsage == 0 && fresh(memory)
    {
      allocPtr, remaining, blocks, memoryUsage := 0, 0, [], 0;
      regions, wasted, home, current := [], [], [], None;
      memory := new TagMemory();
    }

    /** at is what operator new returns. */
    method AllocateNewBlock(blockBytes: nat, at: nat) returns (result: nat)
      requires Valid() && FreshAddress(at, blockBytes, blocks)
      modifies this`blocks, this`memoryUsage
      ensures Valid() && result == at && blocks == old(blocks) + [Block(at, blockBytes)]
      ensures memoryUsage == old(memoryUsage) + blockBytes + PTR_SIZE
    {
      hide TagsMatch, BlocksApart, FreshAddress;
      OneMoreBlock(blocks, at, blockBytes);
      result := at;
      blocks := blocks + [Block(at, blockBytes)];
      memoryUsage := memoryUsage + blockBytes + PTR_SIZE;
      assert blocks[..|blocks| - 1] == old(blocks);
    }

    /** A large request gets a block of its own; otherwise the rest of the block in use is
        given up for a new standard block. */
    method AllocateFallback(bytes: nat, at: nat) returns (result: nat)
      requires Valid() && 0 < bytes && remaining < bytes
      requires FreshAddress(at, if bytes > BLOCK_SIZE / 4 then bytes else BLOCK_SIZE, blocks)
      modifies this
      ensures Valid() && result == at
      ensures regions == old(regions) + [Region(result, bytes, None)]
      ensures if bytes > BLOCK_SIZE / 4
              then allocPtr == old(allocPtr) && remaining == old(remaining) && wasted == old(wasted)
                   && blocks == old(blocks) + [Block(at, bytes)]
              else allocPtr == at + bytes && remaining == BLOCK_SIZE - bytes && wasted == old(wasted + [remaining])
                   && blocks == old(blocks) + [Block(at, BLOCK_SIZE)]
    {
      hide TagsMatch, Usage;
      HomesInBlocks();
      if bytes > BLOCK_SIZE / 4 {
        result := AllocateNewBlock(bytes, at);
        NewRegionApart();
        HandOut(result, bytes, |blocks| - 1);
        return;
      }
      StartBlock(at);
      result := Bump(bytes);
    }

    /** Gives up the rest of the block in use. */
    method StartBlock(at: nat)
      requires Valid() && remaining < BLOCK_SIZE / 4 && FreshAddress(at, BLOCK_SIZE, blocks)
      modifies this
      ensures Valid() && allocPtr == at && remaining == BLOCK_SIZE && regions == old(regions)
      ensures wasted == old(wasted + [remaining]) && blocks == old(blocks) + [Block(at, BLOCK_SIZE)]
    {
      hide TagsMatch, Usage, Apart, BlocksApart;
      HomesInBlocks();
      wasted := wasted + [remaining];
      allocPtr := AllocateNewBlock(BLOCK_SIZE, at);
      remaining := BLOCK_SIZE;
      current := Some(|blocks| - 1);
    }

    lemma HomesInBlocks()
      requires Valid()
      ensures |home| == |regions| && forall i | 0 <= i < |home| :: home[i] < |blocks|
      ensures current.Some? ==> current.value < |blocks|
    {}

    /** Nothing has been handed out in the newest block if it is not the one in use. */
    lemma NewRegionApart()
      requires Valid() && |blocks| > 0 && forall i | 0 <= i < |home| :: home[i] < |blocks| - 1
      ensures forall i | 0 <= i < |regions| ::
              Apart(regions[i].start, regions[i].size, blocks[|blocks| - 1].start, blocks[|blocks| - 1].size)
    {
      forall i | 0 <= i < |regions|
        ensures Apart(regions[i].start, regions[i].size, blocks[|blocks| - 1].start, blocks[|blocks| - 1].size)
      {
        assert Inside(regions[i], blocks[home[i]]);
        assert Apart(blocks[home[i]].start, blocks[home[i]].size, blocks[|blocks| - 1].start,
            blocks[|blocks| - 1].size);
      }
    }

    /** Notes what has been handed out. */
    ghost method HandOut(start: nat, size: nat, block: nat)
      requires BlocksOk() && RegionsOk() && TagsMatch(regions, memory.tags) && size > 0
      requires memoryUsage == Usage(blocks) && forall i | 0 <= i < |wasted| :: wasted[i] < BLOCK_SIZE / 4
      requires block < |blocks| && Inside(Region(start, size, None), blocks[block])
      requires forall i | 0 <= i < |regions| :: Apart(regions[i].start, regions[i].size, start, size)
      requires current == Some(block) ==> start + size <= allocPtr
      modifies this`regions, this`home
      ensures Valid() && regions == old(regions) + [Region(start, size, None)] && home == old(home) + [block]
    {
      regions := regions + [Region(start, size, None)];
      home := home + [block];
    }

    /** The request came out of the block in use. */
    ghost predicate FromRest(ptr: nat, rest: nat, before: seq<Block>, bytes: nat, result: nat)
      reads this
    {
      result == ptr && allocPtr == ptr + bytes && remaining == rest - bytes && blocks == before
    }

    /** It came out of a block of its own, or out of a new block that is in use from now on. */
    ghost predicate FromNew(ptr: nat, rest: nat, before: seq<Block>, bytes: nat, result: nat, at: nat)
      reads this
    {
      && result == at
      && if bytes > BLOCK_SIZE / 4 then allocPtr == ptr && remaining == rest && blocks == before + [Block(at, bytes)]
         else allocPtr == at + bytes && remaining == BLOCK_SIZE - bytes && blocks == before + [Block(at, BLOCK_SIZE)]
    }

    method Allocate(bytes: nat, at: nat) returns (result: nat)
      requires Valid() && bytes > 0
      requires bytes > remaining ==> FreshAddress(at, if bytes > BLOCK_SIZE / 4 then bytes else BLOCK_SIZE, blocks)
      modifies this
      ensures Valid() && regions == old(regions) + [Region(result, bytes, None)]
      ensures if bytes <= old(remaining) then FromRest(old(allocPtr), old(remaining), old(blocks), bytes, result)
              else FromNew(old(allocPtr), old(remaining), old(blocks), bytes, result, at)
    {
      if bytes <= remaining {
        result := Bump(bytes);
        return;
      }
      result := AllocateFallback(bytes, at);
    }

    method Bump(bytes: nat) returns (result: nat)
      requires Valid() && 0 < bytes <= remaining
      modifies this
      ensures Valid() && result == old(allocPtr) > 0 && allocPtr == result + bytes
              && remaining == old(remaining) - bytes
      ensures blocks == old(blocks) && wasted == old(wasted)
      ensures regions == old(regions) + [Region(result, bytes, None)]
    {
      result := allocPtr;
      allocPtr := allocPtr + bytes;
      remaining := remaining - bytes;
      HandOut(result, bytes, current.value);
    }

    /** Fails where the source asserts: if the address is not aligned, or the size is not made
        of whole granules. Neither happens while all requests are multiples of 8 bytes. */
    method AllocateAligned(bytes: nat, at: nat, picked: Tag) returns (result: Option<Pointer>)
      requires Valid() && bytes > 0
      requires Needed(bytes) > remaining ==>
               FreshAddress(at, if Needed(bytes) > BLOCK_SIZE / 4 then Needed(bytes) else BLOCK_SIZE, blocks)
      modifies this, memory
      ensures Valid()
      ensures old(Aligned()) && bytes % 8 == 0 ==> result.Some? && Aligned()
      ensures result.Some? <==>
              (if Needed(bytes) <= old(remaining) then old(allocPtr) else at) % ALIGN == 0 && bytes % 8 == 0
      ensures var start := if Needed(bytes) <= old(remaining) then old(allocPtr) else at;
              if Needed(bytes) <= old(remaining)
              then FromRest(old(allocPtr), old(remaining), old(blocks), Needed(bytes), start)
              else FromNew(old(allocPtr), old(remaining), old(blocks), Needed(bytes), start, at)
      ensures result.Some? ==> bytes % 8 == 0 && result.value.addr % ALIGN == 0 && result.value.tag == picked
                               && regions == old(regions) + [Region(result.value.addr, Needed(bytes), Some(picked))]
    {
      hide RegionsOk, TagsMatch, BlocksOk, Usage, Needed, FreshAddress;
      NeededIsWholeIff(bytes);
      var needed := Needed(bytes);
      var start: nat;
      if needed <= remaining {
        start := Bump(needed);
      } else {
        FreshIsAligned(at, if needed > BLOCK_SIZE / 4 then needed else BLOCK_SIZE, blocks);
        start := AllocateFallback(needed, at);
      }
      if start % ALIGN != 0 { return None; }
      if needed % GRANULE != 0 { return None; }
      var p := Tagged(start, needed, picked);
      return Some(p);
    }

    /** tag_pointer on the region that was handed out last. */
    method Tagged(start: nat, size: nat, picked: Tag) returns (p: Pointer)
      requires Valid() && Whole(start, size) && start > 0
      requires |regions| > 0 && regions[|regions| - 1] == Region(start, size, None)
      modifies this`regions, memory
      ensures Valid() && p == Pointer(start, picked)
      ensures regions == old(regions)[..|old(regions)| - 1] + [Region(start, size, Some(picked))]
    {
      ghost var last := |regions| - 1;
      p := memory.TagPointer(start, size, picked);
      forall i | 0 <= i < last && regions[i].tag.Some?
        ensures Matches(memory.tags, regions[i].start, regions[i].size, regions[i].tag.value)
      {
        var r := regions[i];
        assert Apart(r.start, r.size, regions[last].start, regions[last].size);
        forall g: nat | InRegion(g, r.start, r.size) ensures g in memory.tags && memory.tags[g] == r.tag.value {
          GranulesApart(r.start, r.size, start, size, g);
        }
      }
      regions := regions[..last] + [Region(start, size, Some(picked))];
    }
  }
}
