/** The memory arena: byte regions handed out of blocks, never moved, never reused. */
module Arena {

  const BLOCK_SIZE: nat := 4096
  const ALIGN: nat := 8
  const POINTER_SIZE: nat := 8

  /** Addresses at up to at + size. */
  datatype Region = Region(at: nat, size: nat) {
    predicate Within(b: Region) {
      b.at <= at && at + size <= b.at + b.size
    }

    /** The two regions share no byte. */
    predicate Apart(b: Region) {
      size == 0 || b.size == 0 || at + size <= b.at || b.at + b.size <= at
    }
  }

  ghost predicate Owned(r: Region, blocks: seq<Region>) {
    r.size == 0 || exists i :: 0 <= i < |blocks| && r.Within(blocks[i])
  }

  /** Blocks apart, regions inside blocks and apart, and the free rest of the current block apart from all of them. */
  ghost predicate Layout(blocks: seq<Region>, regions: seq<Region>, free: Region) {
    && (forall i, j :: 0 <= i < j < |blocks| ==> blocks[i].Apart(blocks[j]))
    && (forall i, j :: 0 <= i < j < |regions| ==> regions[i].Apart(regions[j]))
    && (forall i :: 0 <= i < |regions| ==> Owned(regions[i], blocks))
    && Owned(free, blocks)
    && (forall i :: 0 <= i < |regions| ==> regions[i].Apart(free))
  }

  /** Memory the system may hand out next: aligned, and apart from every block still held. */
  ghost predicate Available(b: Region, blocks: seq<Region>) {
    b.at % ALIGN == 0 && forall i :: 0 <= i < |blocks| ==> blocks[i].Apart(b)
  }

  lemma OwnedMore(r: Region, blocks: seq<Region>, b: Region)
    requires Owned(r, blocks)
    ensures Owned(r, blocks + [b])
  {
    if r.size != 0 {
      var i :| 0 <= i < |blocks| && r.Within(blocks[i]);
      assert (blocks + [b])[i] == blocks[i];
    }
  }

  lemma OwnedApart(r: Region, blocks: seq<Region>, b: Region)
    requires Owned(r, blocks) && Available(b, blocks)
    ensures r.Apart(b)
  {}

  /** A new block leaves everything where it is; it may become the current one. */
  lemma LayoutNewBlock(blocks: seq<Region>, regions: seq<Region>, free: Region, b: Region)
    requires Layout(blocks, regions, free) && Available(b, blocks)
    ensures Layout(blocks + [b], regions, free) && Layout(blocks + [b], regions, b)
    ensures free.Apart(b)
  {
    OwnedApart(free, blocks, b);
    OwnedMore(free, blocks, b);
    forall i | 0 <= i < |regions|
      ensures Owned(regions[i], blocks + [b]) && regions[i].Apart(b)
    {
      OwnedMore(regions[i], blocks, b);
      OwnedApart(regions[i], blocks, b);
    }
    assert (blocks + [b])[|blocks|] == b;
  }

  /** A region cut from the free rest. */
  lemma LayoutCarve(blocks: seq<Region>, regions: seq<Region>, free: Region, slop: nat, bytes: nat)
    requires Layout(blocks, regions, free) && slop + bytes <= free.size
    ensures Layout(blocks, regions + [Region(free.at + slop, bytes)],
                   Region(free.at + slop + bytes, free.size - slop - bytes))
  {
    var r, rest := Region(free.at + slop, bytes), Region(free.at + slop + bytes, free.size - slop - bytes);
    assert r.Within(free) && rest.Within(free) && r.Apart(rest);
    Part(r, free, blocks);
    Part(rest, free, blocks);
    forall i | 0 <= i < |regions|
      ensures regions[i].Apart(r) && regions[i].Apart(rest)
    {}
  }

  lemma Part(r: Region, whole: Region, blocks: seq<Region>)
    requires r.Within(whole) && Owned(whole, blocks)
    ensures Owned(r, blocks)
  {
    if r.size != 0 {
      var i :| 0 <= i < |blocks| && whole.Within(blocks[i]);
      assert r.Within(blocks[i]);
    }
  }

  /** A whole block given to one request. */
  lemma LayoutDedicated(blocks: seq<Region>, regions: seq<Region>, free: Region, b: Region)
    requires Layout(blocks, regions, free) && Available(b, blocks)
    ensures Layout(blocks + [b], regions + [b], free)
  {
    LayoutNewBlock(blocks, regions, free, b);
    assert b.Within((blocks + [b])[|blocks|]);
  }

  // ---------- accounts ----------

  /** What has been asked for and what it took. */
  datatype Account = Account(
    /** Bytes asked for in all, and how many requests were for aligned memory. */
    asked: nat, aligned: nat,
    /** Bytes taken out of standard blocks, alignment included. */
    taken: nat,
    /** For every standard block but the current one, the bytes left unused in it. */
    unused: seq<nat>,
    /** Blocks made for a single large request each, and their bytes. */
    large: nat, largeBytes: nat)

  function Sum(s: seq<nat>): nat {
    if s == [] then 0 else Sum(s[..|s| - 1]) + s[|s| - 1]
  }

  /** Standard blocks: the retired ones and, once there is one, the current one. */
  ghost predicate Balanced(a: Account, started: bool, remaining: nat, usage: nat) {
    var standard := |a.unused| + if started then 1 else 0;
    && remaining <= BLOCK_SIZE && (!started ==> a.unused == [] && remaining == 0 && a.taken == 0)
    && standard * BLOCK_SIZE == a.taken + Sum(a.unused) + remaining
    && (forall i :: 0 <= i < |a.unused| ==> a.unused[i] <= if a.aligned == 0 then 1023 else 1030)
    && a.taken + a.largeBytes <= a.asked + 7 * a.aligned
    && a.large * 1025 <= a.largeBytes
    && usage == standard * (BLOCK_SIZE + POINTER_SIZE) + a.largeBytes + a.large * POINTER_SIZE
  }

  lemma {:induction false} SumBound(s: seq<nat>, b: nat)
    requires forall i :: 0 <= i < |s| ==> s[i] <= b
    ensures Sum(s) <= b * |s|
  {
    if s != [] {
      SumBound(s[..|s| - 1], b);
      assert b * |s| == b * (|s| - 1) + b;
    }
  }

  /**
   The memory held is linear in the bytes asked for: at least 3066 of every retired block's
   4096 bytes are in use, and a block of its own wastes only its pointer.
   */
  lemma UsageIsLinear(a: Account, started: bool, remaining: nat, usage: nat)
    requires Balanced(a, started, remaining, usage)
    ensures 3066 * usage <= 4104 * (a.asked + 7 * a.aligned) + 3066 * 4104
    ensures a.aligned == 0 ==> 3073 * usage <= 4104 * a.asked + 3073 * 4104
  {
    SumBound(a.unused, if a.aligned == 0 then 1023 else 1030);
    if started { assert remaining + a.taken + Sum(a.unused) == (|a.unused| + 1) * BLOCK_SIZE; }
  }

  // What each kind of allocation does to the accounts.

  /** Cut from the current block. */
  lemma BalanceCarve(a: Account, started: bool, remaining: nat, usage: nat, bytes: nat, slop: nat, aligned: bool)
    requires Balanced(a, started, remaining, usage) && bytes + slop <= remaining && slop <= if aligned then 7 else 0
    ensures Balanced(a.(asked := a.asked + bytes, aligned := a.aligned + if aligned then 1 else 0,
                        taken := a.taken + bytes + slop), started, remaining - bytes - slop, usage)
  {}

  /** A block of its own. */
  lemma BalanceLarge(a: Account, started: bool, remaining: nat, usage: nat, bytes: nat, aligned: bool)
    requires Balanced(a, started, remaining, usage) && bytes > 1024
    ensures Balanced(a.(asked := a.asked + bytes, aligned := a.aligned + if aligned then 1 else 0,
                        large := a.large + 1, largeBytes := a.largeBytes + bytes),
                     started, remaining, usage + bytes + POINTER_SIZE)
  {}

  /** The current block is retired, with less left than was needed. */
  lemma BalanceRetire(a: Account, started: bool, remaining: nat, usage: nat, bytes: nat, aligned: bool)
    requires Balanced(a, started, remaining, usage) && bytes <= 1024
    requires remaining < bytes + if aligned then 7 else 0
    ensures Balanced(a.(asked := a.asked + bytes, aligned := a.aligned + if aligned then 1 else 0,
                        taken := a.taken + bytes, unused := if started then a.unused + [remaining] else []),
                     true, BLOCK_SIZE - bytes, usage + BLOCK_SIZE + POINTER_SIZE)
  {
    if started {
      var s := a.unused + [remaining];
      assert s[..|s| - 1] == a.unused;
    }
  }

  lemma Empty()
    ensures Layout([], [], Region(0, 0)) && Balanced(Account(0, 0, 0, [], 0, 0), false, 0, 0)
  {}

  class Arena {
    var allocPtr: nat
    var remaining: nat
    /** The blocks held; the code keeps their addresses, the sizes are for the proof. */
    var blocks: seq<Region>
    var memoryUsage: nat

    /** Every region ever returned, in order. */
    ghost var regions: seq<Region>
    ghost var account: Account
    /** Is there a current block? */
    ghost var started: bool

    ghost predicate Valid()
      reads this
    {
      && Layout(blocks, regions, Region(allocPtr, remaining))
      && Balanced(account, started, remaining, memoryUsage)
    }

    constructor ()
      ensures Valid() && regions == [] && account == Account(0, 0, 0, [], 0, 0) && memoryUsage == 0
    {
      Empty();
      hide Layout;
      hide Balanced;
      allocPtr, remaining, blocks, memoryUsage := 0, 0, [], 0;
      regions, account, started := [], Account(0, 0, 0, [], 0, 0), false;
    }

    /** The memory held, linear in what was asked for. */
    function MemoryUsage(): (usage: nat)
      requires Valid()
      reads this
      ensures 3066 * usage <= 4104 * (account.asked + 7 * account.aligned) + 3066 * 4104
      ensures account.aligned == 0 ==> 3073 * usage <= 4104 * account.asked + 3073 * 4104
    {
      UsageIsLinear(account, started, remaining, memoryUsage);
      memoryUsage
    }

    /** A new block at the address the system gives. */
    method AllocateNewBlock(bytes: nat, address: nat) returns (result: nat)
      modifies this`blocks, this`memoryUsage
      ensures result == address && blocks == old(blocks) + [Region(address, bytes)]
      ensures memoryUsage == old(memoryUsage) + bytes + POINTER_SIZE
    {
      result := address;
      blocks := blocks + [Region(result, bytes)];
      memoryUsage := memoryUsage + bytes + POINTER_SIZE;
    }

    /** The size of the block a request needs when the current one has no room for it. */
    static function NewSize(bytes: nat): nat {
      if bytes > BLOCK_SIZE / 4 then bytes else BLOCK_SIZE
    }

    /** So many bytes have been cut from the front of the current block's rest; nothing else has changed. */
    ghost predicate Cut(ptr: nat, left: nat, held: seq<Region>, usage: nat, bytes: nat)
      reads this
    {
      blocks == held && memoryUsage == usage && allocPtr == ptr + bytes && remaining == left - bytes
    }

    /**
     There is one block more, and its pointer: one of just the size for more than 1024 bytes, and
     the current block stays; else one of 4096 bytes, which is the current one now.
     */
    ghost predicate Grown(ptr: nat, left: nat, held: seq<Region>, usage: nat, bytes: nat, address: nat)
      reads this
    {
      if bytes > 1024 then
        blocks == held + [Region(address, bytes)] && memoryUsage == usage + bytes + 8 && allocPtr == ptr && remaining == left
      else
        blocks == held + [Region(address, 4096)] && memoryUsage == usage + 4096 + 8
        && allocPtr == address + bytes && remaining == 4096 - bytes
    }

    /** A large request gets a block of its own; any other retires the current block. */
    method AllocateFallback(bytes: nat, address: nat, ghost aligned: bool) returns (result: nat)
      requires Valid() && remaining < bytes + if aligned then 7 else 0
      requires Available(Region(address, NewSize(bytes)), blocks)
      modifies this
      ensures Valid() && regions == old(regions) + [Region(result, bytes)] && result == address
      ensures Grown(old(allocPtr), old(remaining), old(blocks), old(memoryUsage), bytes, address)
      ensures account.asked == old(account.asked) + bytes
      ensures account.aligned == old(account.aligned) + if aligned then 1 else 0
    {
      hide Layout;
      hide Balanced;
      ghost var free, b := Region(allocPtr, remaining), Region(address, NewSize(bytes));
      if bytes > BLOCK_SIZE / 4 {
        BalanceLarge(account, started, remaining, memoryUsage, bytes, aligned);
        LayoutDedicated(blocks, regions, free, b);
        account := account.(asked := account.asked + bytes, aligned := account.aligned + if aligned then 1 else 0,
                            large := account.large + 1, largeBytes := account.largeBytes + bytes);
        result := AllocateNewBlock(bytes, address);
        regions := regions + [Region(result, bytes)];
        return;
      }
      BalanceRetire(account, started, remaining, memoryUsage, bytes, aligned);
      LayoutNewBlock(blocks, regions, free, b);
      LayoutCarve(blocks + [b], regions, b, 0, bytes);
      account := account.(asked := account.asked + bytes, aligned := account.aligned + if aligned then 1 else 0,
                          taken := account.taken + bytes, unused := if started then account.unused + [remaining] else []);
      started := true;
      allocPtr := AllocateNewBlock(BLOCK_SIZE, address);
      remaining := BLOCK_SIZE;
      result := allocPtr;
      allocPtr := allocPtr + bytes;
      remaining := remaining - bytes;
      regions := regions + [Region(result, bytes)];
    }

    /** So many bytes, from the current block when it has them. */
    method Allocate(bytes: nat, address: nat) returns (result: nat)
      requires Valid() && bytes > 0 && Available(Region(address, NewSize(bytes)), blocks)
      modifies this
      ensures Valid() && regions == old(regions) + [Region(result, bytes)]
      ensures bytes <= old(remaining) ==> result == old(allocPtr) && Cut(old(allocPtr), old(remaining), old(blocks), old(memoryUsage), bytes)
      ensures bytes > old(remaining) ==> result == address && Grown(old(allocPtr), old(remaining), old(blocks), old(memoryUsage), bytes, address)
      ensures account.asked == old(account.asked) + bytes && account.aligned == old(account.aligned)
    {
      hide Layout;
      hide Balanced;
      if bytes <= remaining {
        BalanceCarve(account, started, remaining, memoryUsage, bytes, 0, false);
        LayoutCarve(blocks, regions, Region(allocPtr, remaining), 0, bytes);
        account := account.(asked := account.asked + bytes, taken := account.taken + bytes);
        result := allocPtr;
        allocPtr := allocPtr + bytes;
        remaining := remaining - bytes;
        regions := regions + [Region(result, bytes)];
        return;
      }
      result := AllocateFallback(bytes, address, false);
    }

    /** The same at a multiple of eight. */
    method AllocateAligned(bytes: nat, address: nat) returns (result: nat)
      requires Valid() && Available(Region(address, NewSize(bytes)), blocks)
      modifies this
      ensures Valid() && regions == old(regions) + [Region(result, bytes)] && result % 8 == 0
      ensures var slop := (8 - old(allocPtr) % 8) % 8;
              && (slop + bytes <= old(remaining) ==>
                    result == old(allocPtr) + slop && Cut(old(allocPtr), old(remaining), old(blocks), old(memoryUsage), slop + bytes))
              && (slop + bytes > old(remaining) ==>
                    result == address && Grown(old(allocPtr), old(remaining), old(blocks), old(memoryUsage), bytes, address))
      ensures account.asked == old(account.asked) + bytes && account.aligned == old(account.aligned) + 1
    {
      hide Layout;
      hide Balanced;
      var currentMod := allocPtr % ALIGN;
      var slop := if currentMod == 0 then 0 else ALIGN - currentMod;
      var needed := bytes + slop;
      if needed <= remaining {
        BalanceCarve(account, started, remaining, memoryUsage, bytes, slop, true);
        LayoutCarve(blocks, regions, Region(allocPtr, remaining), slop, bytes);
        account := account.(asked := account.asked + bytes, aligned := account.aligned + 1,
                            taken := account.taken + bytes + slop);
        result := allocPtr + slop;
        allocPtr := allocPtr + needed;
        remaining := remaining - needed;
        regions := regions + [Region(result, bytes)];
      } else {
        result := AllocateFallback(bytes, address, true);
      }
    }
  }
}
