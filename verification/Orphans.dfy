/**
  Orphan inodes and the layout of a checkpoint pack (checkpoint.c, namei.c,
  dir.c, inode.c): how many orphans may be listed, where the blocks of a pack go,
  and what a mount deletes.  The main theorem is over whole runs of operations,
  checkpoints, failed attempts and crashes: a mount deletes exactly the inodes
  that had no link left when the last checkpoint was taken.
*/
module Orphans {

  import Arith
  import opened Errno

  const CP_PACKS: nat := 2
  const PERSIST_CURSEGS: nat := 6
  const NODE_CURSEGS: nat := 3

  /** Blocks per segment, blocks of checkpoint payload, orphans per block. */
  datatype Geometry = Geometry(blocksPerSeg: nat, payload: nat, perBlock: nat)

  predicate Sane(g: Geometry) { g.perBlock > 0 && CP_PACKS + PERSIST_CURSEGS + g.payload <= g.blocksPerSeg }

  /** GET_ORPHAN_BLOCKS. */
  function BlocksFor(g: Geometry, n: nat): nat
    requires g.perBlock > 0
  {
    (n + g.perBlock - 1) / g.perBlock
  }

  /** f2fs_init_ino_entry_info. */
  function MaxOrphans(g: Geometry): nat
    requires Sane(g)
  {
    Arith.NonNeg(g.blocksPerSeg - CP_PACKS - PERSIST_CURSEGS - g.payload, g.perBlock);
    (g.blocksPerSeg - CP_PACKS - PERSIST_CURSEGS - g.payload) * g.perBlock
  }

  // ------------------------------------------------------------------- accounting

  ghost predicate Distinct(s: seq<nat>) { forall i, j :: 0 <= i < j < |s| ==> s[i] != s[j] }

  function Listed(list: seq<nat>, ino: nat): seq<nat> { if ino in list then list else list + [ino] }

  function Without(list: seq<nat>, ino: nat): seq<nat> {
    if list == [] then []
    else if list[0] == ino then Without(list[1..], ino)
    else [list[0]] + Without(list[1..], ino)
  }

  /** im[ORPHAN_INO].  A reservation is taken before an inode may become an orphan. */
  class OrphanList {
    const g: Geometry
    var list: seq<nat>        // ino_list, and ino_root beside it
    var num: nat              // ino_num
    ghost var reserved: nat   // reservations not yet used or given back

    ghost predicate Valid()
      reads this
    {
      Sane(g) && num == |list| + reserved && num <= MaxOrphans(g) && Distinct(list)
    }

    constructor (g: Geometry)
      requires Sane(g)
      ensures Valid() && this.g == g && list == [] && num == 0
    {
      this.g, list, num, reserved := g, [], 0, 0;
    }

    /** f2fs_acquire_orphan_inode. */
    method Acquire() returns (err: int)
      requires Valid()
      modifies this
      ensures Valid() && list == old(list)
      ensures err == (if old(num) < MaxOrphans(g) then 0 else ENOSPC)
      ensures reserved == old(reserved) + if err == 0 then 1 else 0
    {
      if num >= MaxOrphans(g) {
        return ENOSPC;
      }
      num := num + 1;
      reserved := reserved + 1;
      err := 0;
    }

    /** f2fs_release_orphan_inode. */
    method Release()
      requires Valid() && reserved > 0
      modifies this
      ensures Valid() && list == old(list) && reserved == old(reserved) - 1
    {
      num := num - 1;
      reserved := reserved - 1;
    }

    /** f2fs_add_orphan_inode: an inode that is listed already leaves its reservation unused. */
    method Add(ino: nat)
      requires Valid() && reserved > 0
      modifies this
      ensures Valid() && num == old(num)
      ensures list == Listed(old(list), ino)
      ensures reserved == if ino in old(list) then old(reserved) else old(reserved) - 1
    {
      if ino !in list {
        list := list + [ino];
        reserved := reserved - 1;
      }
    }

    /** f2fs_remove_orphan_inode. */
    method Remove(ino: nat)
      requires Valid()
      modifies this
      ensures Valid() && reserved == old(reserved)
      ensures list == Without(old(list), ino) && ino !in list
      ensures forall x :: x != ino ==> (x in list <==> x in old(list))
      ensures num == if ino in old(list) then old(num) - 1 else old(num)
    {
      WithoutKeeps(list, ino);
      if ino in list {
        var k :| 0 <= k < |list| && list[k] == ino;
        WithoutCuts(list, ino, k);
        list := list[..k] + list[k + 1..];
        num := num - 1;
      }
    }

    /**
      The end of f2fs_drop_nlink: the reservation made for the unlink is used or
      given back.  Only an inode that is an orphan already would leave it over.
    */
    method DropNlink(ino: nat, links: nat)
      requires Valid() && reserved > 0
      modifies this
      ensures Valid()
      ensures list == if links == 0 then Listed(old(list), ino) else old(list)
      ensures reserved == if links == 0 && ino in old(list) then old(reserved) else old(reserved) - 1
    {
      if links == 0 {
        Add(ino);
      } else {
        Release();
      }
    }
  }

  lemma {:induction false} WithoutKeeps(list: seq<nat>, ino: nat)
    requires Distinct(list)
    ensures Distinct(Without(list, ino)) && ino !in Without(list, ino)
    ensures forall x :: x != ino ==> (x in Without(list, ino) <==> x in list)
    ensures |Without(list, ino)| == if ino in list then |list| - 1 else |list|
    ensures ino !in list ==> Without(list, ino) == list
  {
    if list != [] {
      WithoutKeeps(list[1..], ino);
      assert list == [list[0]] + list[1..];
      var rest := Without(list[1..], ino);
      if list[0] != ino {
        assert list[0] !in list[1..];
        assert list[0] !in rest;
      }
    }
  }

  lemma {:induction false} WithoutCuts(list: seq<nat>, ino: nat, k: nat)
    requires Distinct(list) && k < |list| && list[k] == ino
    ensures Without(list, ino) == list[..k] + list[k + 1..]
  {
    if k == 0 {
      WithoutKeeps(list[1..], ino);
    } else {
      WithoutCuts(list[1..], ino, k - 1);
      assert list[..k] + list[k + 1..] == [list[0]] + (list[1..][..k - 1] + list[1..][k..]);
    }
  }

  // ------------------------------------------------------------------- pack layout

  /** What do_checkpoint puts into the header: the block where summaries start, and the size of the pack. */
  datatype Header = Header(startSum: nat, total: nat, orphansPresent: bool)

  function HeaderFor(g: Geometry, num: nat, dataSums: nat, nodeSums: bool): Header
    requires g.perBlock > 0
  {
    Header(1 + g.payload + BlocksFor(g, num),
           CP_PACKS + g.payload + dataSums + BlocksFor(g, num) + if nodeSums then NODE_CURSEGS else 0,
           num > 0)
  }

  datatype Block =
    | Head(h: Header)
    | Payload
    | OrphanBlock(inos: seq<nat>, index: nat, count: nat)
    | Summary
    | NatBits

  /** What is readable; a block that is not there gives an I/O error. */
  type Disk = map<nat, Block>

  /** The entries of a block read as an orphan block. */
  function Entries(b: Block): seq<nat> { if b.OrphanBlock? then b.inos else [] }

  /** So many orphans are allowed as fit into a segment beside header, footer, the six summaries and the payload. */
  lemma BlocksBound(g: Geometry, n: nat)
    requires Sane(g)
    ensures n <= MaxOrphans(g) <==> 2 + g.payload + BlocksFor(g, n) + 6 <= g.blocksPerSeg
  {
    var k := g.blocksPerSeg - CP_PACKS - PERSIST_CURSEGS - g.payload;
    var q := BlocksFor(g, n);
    Arith.Division(n + g.perBlock - 1, g.perBlock);
    if q > k { Arith.Multiples(k, q, g.perBlock); } else { Arith.Grid(q, k, g.perBlock); }
  }

  lemma BlocksExact(g: Geometry, k: nat, c: nat)
    requires g.perBlock > 0 && c <= g.perBlock
    ensures k * g.perBlock + c >= 0
    ensures BlocksFor(g, k * g.perBlock + c) == if c == 0 then k else k + 1
  {
    Arith.NonNeg(k, g.perBlock);
    if c == 0 {
      Arith.DivMod(k, g.perBlock, g.perBlock - 1);
    } else {
      Arith.DivMod(k + 1, g.perBlock, c - 1);
      Arith.Grid(k, k + 1, g.perBlock);
    }
  }

  /** update_ckpt_flags: whether a checkpoint writes NAT bits, which go to the end of the segment. */
  function KeepNatBits(g: Geometry, total: nat, natBits: nat, umount: bool, isSet: bool, enabled: bool): bool {
    umount && total + natBits <= g.blocksPerSeg && (isSet || enabled)
  }

  /** What the caller of do_checkpoint decides. */
  datatype Shape = Shape(dataSums: nat, nodeSums: bool, natBits: nat, umount: bool, isSet: bool, enabled: bool)

  predicate Possible(sh: Shape) { 1 <= sh.dataSums <= 3 }

  function HeaderOf(g: Geometry, sh: Shape, num: nat): Header
    requires g.perBlock > 0
  {
    HeaderFor(g, num, sh.dataSums, sh.nodeSums)
  }

  predicate Keeps(g: Geometry, sh: Shape, num: nat)
    requires g.perBlock > 0
  {
    KeepNatBits(g, HeaderOf(g, sh, num).total, sh.natBits, sh.umount, sh.isSet, sh.enabled)
  }

  /** All of `lo` up to `hi` holds `b`. */
  ghost predicate Filled(disk: Disk, lo: nat, hi: nat, b: Block) {
    forall x: nat :: lo <= x < hi ==> x in disk && disk[x] == b
  }

  /** Nothing from `lo` up to `hi` differs. */
  ghost predicate Agree(disk: Disk, disk': Disk, lo: int, hi: int) {
    forall x: nat :: lo <= x < hi ==> (x in disk <==> x in disk') && (x in disk ==> disk[x] == disk'[x])
  }

  /** Nothing differs but from `lo` up to `hi`. */
  ghost predicate AgreeOutside(disk: Disk, disk': Disk, lo: int, hi: int) {
    forall x: nat :: x < lo || hi <= x ==> (x in disk <==> x in disk') && (x in disk ==> disk[x] == disk'[x])
  }

  /**
    A whole pack: the header in front and again as the footer, where validation
    looks for it; the orphans and the summaries where the header says; the NAT
    bits untouched by any of it; no other block changed.
  */
  ghost predicate PackAt(g: Geometry, disk: Disk, disk': Disk, start: nat, list: seq<nat>, num: nat, sh: Shape)
    requires g.perBlock > 0
  {
    var h := HeaderOf(g, sh, num);
    var used := BlocksFor(g, |list|);
    && CP_PACKS < h.total <= g.blocksPerSeg && 1 + g.payload + used <= h.startSum < h.total - 1
    && FrontAt(g, disk, disk', start, h, Keeps(g, sh, num), sh.natBits)
    && HoldsList(g, disk', start + 1 + g.payload, list, BlocksFor(g, num))
    && Filled(disk', start + h.startSum, start + h.total - 1, Summary)
    && Filled(disk', start + h.total - 1, start + h.total, Head(h))
  }

  /** Header and payload are written, and the NAT bits where they are kept; nothing else outside the pack differs. */
  ghost predicate FrontAt(g: Geometry, disk: Disk, disk': Disk, start: nat, h: Header, keep: bool, natBits: nat) {
    && Filled(disk', start, start + 1, Head(h)) && Filled(disk', start + 1, start + 1 + g.payload, Payload)
    && (keep ==>
          natBits <= g.blocksPerSeg && Filled(disk', start + g.blocksPerSeg - natBits, start + g.blocksPerSeg, NatBits))
    && AgreeOutside(disk, disk', start, start + g.blocksPerSeg)
    && Agree(disk, disk', start + h.total, start + g.blocksPerSeg - if keep then natBits else 0)
  }

  /** Writes `b` into `lo` up to `hi`. */
  method Fill(disk: Disk, lo: nat, hi: nat, b: Block) returns (disk': Disk)
    requires lo <= hi
    ensures Filled(disk', lo, hi, b) && AgreeOutside(disk, disk', lo, hi)
  {
    disk' := disk;
    for i := lo to hi
      invariant Filled(disk', lo, i, b) && AgreeOutside(disk, disk', lo, i)
    {
      disk' := disk'[i := b];
    }
  }

  /** The pack is as long as its parts, fits into a segment, and leaves the NAT bits room where they are kept. */
  lemma HeaderFits(g: Geometry, sh: Shape, num: nat)
    requires Sane(g) && num <= MaxOrphans(g) && Possible(sh)
    ensures var h := HeaderOf(g, sh, num);
            && h.startSum == 1 + g.payload + BlocksFor(g, num)
            && h.total == h.startSum + sh.dataSums + (if sh.nodeSums then NODE_CURSEGS else 0) + 1
            && CP_PACKS < h.total <= g.blocksPerSeg
            && (Keeps(g, sh, num) <==>
                sh.umount && (sh.isSet || sh.enabled) && h.total + sh.natBits <= g.blocksPerSeg)
  {
    BlocksBound(g, num);
  }

  /** The NAT bits if they are kept, then the header and its payload. */
  method WriteFront(g: Geometry, disk: Disk, start: nat, h: Header, keep: bool, natBits: nat) returns (disk': Disk)
    requires 1 + g.payload <= h.total <= g.blocksPerSeg && (keep ==> h.total + natBits <= g.blocksPerSeg)
    ensures FrontAt(g, disk, disk', start, h, keep, natBits)
  {
    disk' := disk;
    if keep {
      disk' := Fill(disk', start + g.blocksPerSeg - natBits, start + g.blocksPerSeg, NatBits);
    }
    disk' := Fill(disk', start, start + 1, Head(h));
    disk' := Fill(disk', start + 1, start + 1 + g.payload, Payload);
  }

  /** The orphan blocks, if there may be any. */
  method WriteMiddle(g: Geometry, disk: Disk, at: nat, list: seq<nat>, num: nat) returns (disk': Disk, blk: nat)
    requires g.perBlock > 0 && |list| <= num
    ensures blk == at + BlocksFor(g, num) && BlocksFor(g, |list|) <= BlocksFor(g, num)
    ensures HoldsList(g, disk', at, list, BlocksFor(g, num))
    ensures AgreeOutside(disk, disk', at, at + BlocksFor(g, |list|))
  {
    BlocksMonotone(g, |list|, num);
    hide BlocksFor, HoldsList;
    disk', blk := disk, at;
    if num > 0 {
      disk' := WriteOrphans(disk', blk, list, num, g);
      blk := blk + BlocksFor(g, num);
    } else {
      NothingHeld(g, disk', blk, BlocksFor(g, num));
      NoBlocks(g);
    }
  }

  /** The summaries and, last of all, the footer. */
  method WriteBack(disk: Disk, from: nat, h: Header, sh: Shape) returns (disk': Disk, footer: nat)
    ensures footer == from + sh.dataSums + if sh.nodeSums then NODE_CURSEGS else 0
    ensures Filled(disk', from, footer, Summary) && Filled(disk', footer, footer + 1, Head(h))
    ensures AgreeOutside(disk, disk', from, footer + 1)
  {
    var blk := from;
    disk' := Fill(disk, blk, blk + sh.dataSums, Summary);
    blk := blk + sh.dataSums;
    if sh.nodeSums {
      disk' := Fill(disk', blk, blk + NODE_CURSEGS, Summary);
      blk := blk + NODE_CURSEGS;
    }
    footer := blk;
    disk' := Fill(disk', footer, footer + 1, Head(h));
  }

  /** The writes of do_checkpoint in order. */
  method WritePack(g: Geometry, disk: Disk, start: nat, list: seq<nat>, num: nat, sh: Shape) returns (disk': Disk)
    requires Sane(g) && |list| <= num <= MaxOrphans(g) && Possible(sh)
    ensures PackAt(g, disk, disk', start, list, num, sh)
  {
    HeaderFits(g, sh, num);
    hide BlocksFor, MaxOrphans, HeaderOf, Keeps, HoldsList, Filled, FrontAt, AgreeOutside;
    var h := HeaderOf(g, sh, num);
    var at := start + 1 + g.payload;
    disk' := WriteFront(g, disk, start, h, Keeps(g, sh, num), sh.natBits);
    ghost var front := disk';
    var blk, footer;
    disk', blk := WriteMiddle(g, disk', at, list, num);
    ghost var orphans := disk';
    disk', footer := WriteBack(disk', blk, h, sh);
    MiddleKept(g, front, orphans, disk', at, list, BlocksFor(g, num), footer + 1);
    FrontKept(g, disk, front, disk', start, h, Keeps(g, sh, num), sh.natBits);
  }

  /** What follows the orphan blocks leaves them alone. */
  lemma MiddleKept(g: Geometry, front: Disk, disk: Disk, disk': Disk, at: nat, list: seq<nat>, blocks: nat, end: nat)
    requires g.perBlock > 0 && BlocksFor(g, |list|) <= blocks && at + blocks <= end
    requires HoldsList(g, disk, at, list, blocks) && AgreeOutside(front, disk, at, at + BlocksFor(g, |list|))
    requires AgreeOutside(disk, disk', at + blocks, end)
    ensures HoldsList(g, disk', at, list, blocks) && AgreeOutside(front, disk', at, end)
  {
    hide HoldsList, BlocksFor;
    Behind(disk, disk', at, at + BlocksFor(g, |list|), at + blocks, end);
    HoldsFrame(g, disk, disk', at, list, blocks);
    InOne(front, disk, disk', at, at + BlocksFor(g, |list|), at + blocks, end);
  }

  lemma Behind(disk: Disk, disk': Disk, lo: int, hi: int, from: int, until: int)
    requires hi <= from && AgreeOutside(disk, disk', from, until)
    ensures Agree(disk, disk', lo, hi)
  {
  }

  /** Two writes within one range. */
  lemma InOne(a: Disk, b: Disk, c: Disk, lo: int, hi: int, from: int, until: int)
    requires lo <= hi <= from <= until && AgreeOutside(a, b, lo, hi) && AgreeOutside(b, c, from, until)
    ensures AgreeOutside(a, c, lo, until)
  {
  }

  /** What follows the payload overwrites nothing of the front, nor the NAT bits behind the pack. */
  lemma FrontKept(g: Geometry, was: Disk, disk: Disk, disk': Disk, start: nat, h: Header, keep: bool, natBits: nat)
    requires 1 + g.payload <= h.total <= g.blocksPerSeg && (keep ==> h.total + natBits <= g.blocksPerSeg)
    requires FrontAt(g, was, disk, start, h, keep, natBits)
    requires AgreeOutside(disk, disk', start + 1 + g.payload, start + h.total)
    ensures FrontAt(g, was, disk', start, h, keep, natBits)
  {
  }

  // ------------------------------------------------------------------ orphan blocks

  /** The entries of `n` blocks. */
  function ReadAll(disk: Disk, start: nat, n: nat): seq<nat> {
    if n == 0 then []
    else ReadAll(disk, start, n - 1) + if start + n - 1 in disk then Entries(disk[start + n - 1]) else []
  }

  /** The blocks from `start` on hold `list`, in as many blocks as it needs, numbered from 1. */
  ghost predicate HoldsList(g: Geometry, disk: Disk, start: nat, list: seq<nat>, count: nat)
    requires g.perBlock > 0
  {
    var n := BlocksFor(g, |list|);
    && ReadAll(disk, start, n) == list
    && forall b: nat :: start <= b < start + n ==>
         b in disk && disk[b].OrphanBlock? && disk[b].index == b - start + 1 && disk[b].count == count
         && |disk[b].inos| <= g.perBlock
  }

  lemma {:induction false} ReadAllFrame(disk: Disk, disk': Disk, start: nat, n: nat)
    requires Agree(disk, disk', start, start + n)
    ensures ReadAll(disk, start, n) == ReadAll(disk', start, n)
  {
    if n > 0 {
      ReadAllFrame(disk, disk', start, n - 1);
    }
  }

  lemma HoldsFrame(g: Geometry, disk: Disk, disk': Disk, start: nat, list: seq<nat>, count: nat)
    requires g.perBlock > 0 && HoldsList(g, disk, start, list, count)
    requires Agree(disk, disk', start, start + BlocksFor(g, |list|))
    ensures HoldsList(g, disk', start, list, count)
  {
    ReadAllFrame(disk, disk', start, BlocksFor(g, |list|));
  }

  lemma NoBlocks(g: Geometry)
    requires g.perBlock > 0
    ensures BlocksFor(g, 0) == 0
  {
    BlocksExact(g, 0, 0);
  }

  lemma NothingHeld(g: Geometry, disk: Disk, start: nat, count: nat)
    requires g.perBlock > 0
    ensures HoldsList(g, disk, start, [], count)
  {
    NoBlocks(g);
  }

  lemma OneMore(g: Geometry, disk: Disk, start: nat, list: seq<nat>, k: nat, cur: seq<nat>, count: nat)
    requires g.perBlock > 0 && |list| == k * g.perBlock && 0 < |cur| <= g.perBlock
    requires HoldsList(g, disk, start, list, count)
    ensures BlocksFor(g, |list|) == k && BlocksFor(g, |list + cur|) == k + 1
    ensures HoldsList(g, disk[start + k := OrphanBlock(cur, k + 1, count)], start, list + cur, count)
  {
    var next := disk[start + k := OrphanBlock(cur, k + 1, count)];
    BlocksExact(g, k, 0);
    BlocksExact(g, k, |cur|);
    hide BlocksFor;
    ReadAllFrame(disk, next, start, k);
    assert ReadAll(next, start, k + 1) == ReadAll(next, start, k) + cur;
  }

  /** write_orphan_inodes. */
  method WriteOrphans(disk: Disk, start: nat, list: seq<nat>, num: nat, g: Geometry) returns (disk': Disk)
    requires g.perBlock > 0
    ensures HoldsList(g, disk', start, list, BlocksFor(g, num))
    ensures AgreeOutside(disk, disk', start, start + BlocksFor(g, |list|))
  {
    hide HoldsList, BlocksFor, ReadAll;
    disk' := disk;
    var blocks := BlocksFor(g, num);
    var index: nat := 1;
    var cur: seq<nat> := [];
    var i := 0;
    ghost var done: seq<nat> := [];
    NothingHeld(g, disk, start, blocks);
    NoBlocks(g);
    while i < |list|
      invariant 0 <= i <= |list| && |cur| < g.perBlock && index >= 1
      invariant done + cur == list[..i] && |done| == (index - 1) * g.perBlock && BlocksFor(g, |done|) == index - 1
      invariant HoldsList(g, disk', start, done, blocks)
      invariant AgreeOutside(disk, disk', start, start + index - 1)
    {
      cur := cur + [list[i]];
      i := i + 1;
      assert done + cur == list[..i];
      if |cur| == g.perBlock {
        OneMore(g, disk', start, done, index - 1, cur, blocks);
        Arith.Grid(index - 1, index, g.perBlock);
        disk' := disk'[start + index - 1 := OrphanBlock(cur, index, blocks)];
        index := index + 1;
        done, cur := done + cur, [];
      }
    }
    if cur != [] {
      OneMore(g, disk', start, done, index - 1, cur, blocks);
      disk' := disk'[start + index - 1 := OrphanBlock(cur, index, blocks)];
      done := done + cur;
    }
    assert done == list;
  }

  lemma BlocksMonotone(g: Geometry, n: nat, m: nat)
    requires g.perBlock > 0 && n <= m
    ensures BlocksFor(g, n) <= BlocksFor(g, m)
  {
    var a, b := BlocksFor(g, n), BlocksFor(g, m);
    Arith.Division(n + g.perBlock - 1, g.perBlock);
    Arith.Division(m + g.perBlock - 1, g.perBlock);
    Arith.Grid(b, b + 1, g.perBlock);
    Arith.Quotient(a, b + 1, g.perBlock, n + g.perBlock - 1);
  }

  // --------------------------------------------------------------------- recovery

  /** How many blocks can be read before the first that cannot. */
  function Reach(disk: Disk, start: nat, n: nat): nat
    decreases n
  {
    if n == 0 || start !in disk then 0 else 1 + Reach(disk, start + 1, n - 1)
  }

  /** The entries before the first that cannot be deleted. */
  function Before(inos: seq<nat>, stuck: set<nat>): seq<nat> {
    if inos == [] || inos[0] in stuck then [] else [inos[0]] + Before(inos[1..], stuck)
  }

  datatype Recovery = Recovery(inos: seq<nat>, ok: bool)

  /** What recovery is to do: delete in order all that can be read, up to the first failure. */
  function Recovered(g: Geometry, disk: Disk, start: nat, h: Header, stuck: set<nat>): (r: Recovery)
    requires h.startSum >= 1 + g.payload
  {
    var at, n := start + 1 + g.payload, h.startSum - 1 - g.payload;
    if !h.orphansPresent then Recovery([], true)
    else
      var all := ReadAll(disk, at, Reach(disk, at, n));
      Recovery(Before(all, stuck), Reach(disk, at, n) == n && Before(all, stuck) == all)
  }

  /** The entries of one block are deleted in order, up to the first that fails. */
  method DeleteEntries(b: seq<nat>, stuck: set<nat>) returns (inos: seq<nat>, ok: bool)
    ensures inos == Before(b, stuck) && (ok <==> Before(b, stuck) == b)
  {
    inos := [];
    var j := 0;
    while j < |b|
      invariant 0 <= j <= |b| && inos == b[..j] && Before(b, stuck) == inos + Before(b[j..], stuck)
    {
      assert b[j..][1..] == b[j + 1..];
      if b[j] in stuck {
        return inos, false;
      }
      inos := inos + [b[j]];
      j := j + 1;
    }
    assert b[..j] == b;
    ok := true;
  }

  /** f2fs_recover_orphan_inodes; `stuck` are the inodes that recover_orphan_inode fails on. */
  method RecoverOrphans(g: Geometry, disk: Disk, start: nat, h: Header, stuck: set<nat>)
    returns (inos: seq<nat>, ok: bool)
    requires h.startSum >= 1 + g.payload
    ensures Recovery(inos, ok) == Recovered(g, disk, start, h, stuck)
  {
    hide Before, Reach;
    inos, ok := [], true;
    if !h.orphansPresent {
      return;
    }
    var at := start + 1 + g.payload;
    var blocks := h.startSum - 1 - g.payload;
    ghost var reach := Reach(disk, at, blocks);
    ReachWithin(disk, at, blocks);
    BeforeAll([], stuck);
    for i := 0 to blocks
      invariant inos == ReadAll(disk, at, i) && Before(inos, stuck) == inos && i <= reach
    {
      ReachAt(disk, at, blocks, i);
      if at + i !in disk {
        return inos, false;
      }
      var more;
      more, ok := DeleteEntries(Entries(disk[at + i]), stuck);
      BeforeAll(inos, stuck);
      BeforeThen(inos, Entries(disk[at + i]), stuck);
      BeforeBoth(inos, Entries(disk[at + i]), stuck);
      inos := inos + more;
      if !ok {
        ReadAllLess(disk, at, i + 1, reach);
        BeforePrefix(ReadAll(disk, at, i + 1), ReadAll(disk, at, reach), stuck);
        return;
      }
    }
  }

  lemma {:induction false} BeforeThen(a: seq<nat>, b: seq<nat>, stuck: set<nat>)
    requires forall x :: x in a ==> x !in stuck
    ensures Before(a + b, stuck) == a + Before(b, stuck)
  {
    if a == [] {
      assert a + b == b;
    } else {
      BeforeThen(a[1..], b, stuck);
      assert (a + b)[1..] == a[1..] + b && (a + b)[0] == a[0];
    }
  }

  lemma {:induction false} BeforeStops(a: seq<nat>, b: seq<nat>, stuck: set<nat>)
    requires exists x :: x in a && x in stuck
    ensures Before(a + b, stuck) == Before(a, stuck)
  {
    assert (a + b)[1..] == a[1..] + b && (a + b)[0] == a[0];
    if a[0] !in stuck {
      assert a == [a[0]] + a[1..];
      BeforeStops(a[1..], b, stuck);
    }
  }

  lemma BeforeBoth(a: seq<nat>, b: seq<nat>, stuck: set<nat>)
    ensures Before(a + b, stuck) == a + b <==> Before(a, stuck) == a && Before(b, stuck) == b
  {
    BeforeAll(a, stuck);
    BeforeAll(b, stuck);
    BeforeAll(a + b, stuck);
  }

  /** A failure in the front decides the whole. */
  lemma BeforePrefix(p: seq<nat>, all: seq<nat>, stuck: set<nat>)
    requires p <= all && Before(p, stuck) != p
    ensures Before(all, stuck) == Before(p, stuck) && Before(all, stuck) != all
  {
    BeforeAll(p, stuck);
    BeforeAll(all, stuck);
    BeforeStops(p, all[|p|..], stuck);
    assert all == p + all[|p|..];
  }

  lemma {:induction false} ReachWithin(disk: Disk, start: nat, n: nat)
    ensures Reach(disk, start, n) <= n
    decreases n
  {
    if n > 0 && start in disk { ReachWithin(disk, start + 1, n - 1); }
  }

  /** The first block out of reach is missing, and those within are not. */
  lemma {:induction false} ReachAt(disk: Disk, start: nat, n: nat, i: nat)
    requires i < n && i <= Reach(disk, start, n)
    ensures start + i in disk <==> i < Reach(disk, start, n)
    decreases n
  {
    if i > 0 { ReachAt(disk, start + 1, n - 1, i - 1); }
  }

  lemma {:induction false} ReadAllLess(disk: Disk, start: nat, n: nat, m: nat)
    requires n <= m
    ensures ReadAll(disk, start, n) <= ReadAll(disk, start, m)
  {
    if n < m { ReadAllLess(disk, start, n, m - 1); }
  }

  lemma {:induction false} ReachAll(disk: Disk, start: nat, n: nat)
    requires forall b: nat :: start <= b < start + n ==> b in disk
    ensures Reach(disk, start, n) == n
    decreases n
  {
    if n > 0 { ReachAll(disk, start + 1, n - 1); }
  }

  lemma {:induction false} BeforeAll(inos: seq<nat>, stuck: set<nat>)
    ensures Before(inos, stuck) == inos <==> forall x :: x in inos ==> x !in stuck
  {
    if inos != [] {
      BeforeAll(inos[1..], stuck);
      assert inos == [inos[0]] + inos[1..];
    }
  }

  /** A pack whose number counts listed orphans alone is recovered as its list, unless an inode fails. */
  lemma PackRecovers(g: Geometry, disk: Disk, start: nat, h: Header, list: seq<nat>, stuck: set<nat>)
    requires g.perBlock > 0 && Stored(g, disk, start, h, list)
    ensures var r := Recovered(g, disk, start, h, stuck);
            && r.inos == Before(list, stuck) && (r.ok <==> forall x :: x in list ==> x !in stuck)
  {
    BeforeAll(list, stuck);
    if h.orphansPresent { ReachAll(disk, start + 1 + g.payload, BlocksFor(g, |list|)); }
  }

  /** The committed pack at `start`: its header, and its orphan blocks with `list` in them. */
  ghost predicate Stored(g: Geometry, disk: Disk, start: nat, h: Header, list: seq<nat>)
    requires g.perBlock > 0
  {
    && start in disk && disk[start] == Head(h)
    && h.startSum == 1 + g.payload + BlocksFor(g, |list|) < g.blocksPerSeg && h.orphansPresent == (|list| > 0)
    && HoldsList(g, disk, start + 1 + g.payload, list, BlocksFor(g, |list|))
  }

  // ------------------------------------------------------------------------- runs

  /** What the inodes are: how many links each has, and those no one will list (see `Lose`). */
  datatype Inodes = Inodes(links: map<nat, nat>, lost: set<nat>)

  /** Removal of a name: unlink, a rename onto a name, a dentry replaced in recovery.  Or a new inode. */
  datatype Kind = Removal | Temporary | Creation

  /**
    How far an operation has come between f2fs_lock_op and f2fs_unlock_op.  In
    `Failing` it is in f2fs_handle_failed_inode, and in `Leaving` only the unlock is left.
  */
  datatype Point = Entered(kind: Kind) | Holding(kind: Kind) | Failing | HoldingFailed | Leaving

  predicate Holds(p: Point) { p.Holding? || p.HoldingFailed? }

  /**
    The volume.  `ops` are the operations under way.  Recovery of a dentry is one
    of them: cp_global_sem keeps it apart from checkpoints.  `kept` and `before`
    are the list and the inodes of the last checkpoint.
  */
  datatype Volume = Volume(
    list: seq<nat>, num: int, ops: map<nat, Point>, now: Inodes,
    disk: Disk, start: nat, h: Header, kept: seq<nat>, before: Inodes)

  datatype Step =
    | Begin(id: nat, kind: Kind)          // f2fs_lock_op
    | Reserve(id: nat)                    // f2fs_acquire_orphan_inode, granted or refused
    | GiveBack(id: nat)                   // f2fs_do_tmpfile fails: f2fs_release_orphan_inode
    | Fail(id: nat)                       // an inode could not be created
    | Skip(id: nat)                       // the failed inode has no block
    | Lose(id: nat, ino: nat)             // the failed inode cannot be looked up or listed
    | Spawn(id: nat, ino: nat)            // f2fs_add_orphan_inode of a temporary file or a failed inode
    | Drop(id: nat, ino: nat, n: nat)     // f2fs_drop_nlink, and the inode replaced by a rename
    | Create(id: nat, ino: nat, n: nat)   // a new inode with links
    | End(id: nat)                        // f2fs_unlock_op
    | Link(ino: nat)                      // f2fs_init_inode_metadata with FI_INC_LINK
    | Evict(ino: nat)                     // truncate_node of an inode without links
    | Checkpoint(sh: Shape)               // f2fs_write_checkpoint
    | Attempt                             // the same, failing before its footer is durable
    | Mount(stuck: set<nat>)              // after a crash at any moment

  function Holders(ops: map<nat, Point>): set<nat> { set id | id in ops && Holds(ops[id]) }

  predicate At(v: Volume, id: nat, p: Point) { id in v.ops && v.ops[id] == p }

  function Go(v: Volume, id: nat, p: Point): Volume { v.(ops := v.ops[id := p]) }

  /** Where a request for a reservation leads. */
  function Asked(p: Point, granted: bool): Point
    requires p == Entered(Removal) || p == Entered(Temporary) || p == Failing
  {
    if granted then (if p == Failing then HoldingFailed else Holding(p.kind))
    else if p == Entered(Temporary) then Failing
    else if p == Failing then Failing
    else Leaving
  }

  function Other(g: Geometry, base: nat, start: nat): nat { if start == base then base + g.blocksPerSeg else base }

  function Unlisted(v: Volume, ino: nat): Volume {
    v.(list := Without(v.list, ino), num := if ino in v.list then v.num - 1 else v.num)
  }

  function SetLinks(i: Inodes, ino: nat, n: nat): Inodes { Inodes(i.links[ino := n], i.lost - {ino}) }

  ghost predicate Next(g: Geometry, base: nat, v: Volume, w: Volume, step: Step)
    requires Sane(g)
  {
    match step
    case Begin(id, kind) => id !in v.ops && w == Go(v, id, Entered(kind))
    case Reserve(id) =>
      && (At(v, id, Entered(Removal)) || At(v, id, Entered(Temporary)) || At(v, id, Failing))
      && var granted := v.num < MaxOrphans(g);
         w == Go(v, id, Asked(v.ops[id], granted)).(num := if granted then v.num + 1 else v.num)
    case GiveBack(id) => At(v, id, Holding(Temporary)) && w == Go(v, id, Failing).(num := v.num - 1)
    case Fail(id) => At(v, id, Entered(Creation)) && w == Go(v, id, Failing)
    case Skip(id) => At(v, id, Failing) && w == Go(v, id, Leaving)
    case Lose(id, ino) =>
      && At(v, id, Failing) && ino !in v.now.links
      && w == Go(v, id, Leaving).(now := Inodes(v.now.links[ino := 0], v.now.lost + {ino}))
    case Spawn(id, ino) =>
      && (At(v, id, Holding(Temporary)) || At(v, id, HoldingFailed)) && ino !in v.now.links
      && w == Go(v, id, Leaving).(now := SetLinks(v.now, ino, 0), list := Listed(v.list, ino))
    case Drop(id, ino, n) =>
      && At(v, id, Holding(Removal)) && ino in v.now.links && 0 < n <= v.now.links[ino]
      && var rest := v.now.links[ino] - n;
         w == Go(v, id, Leaving).(now := SetLinks(v.now, ino, rest),
                                  list := if rest == 0 then Listed(v.list, ino) else v.list,
                                  num := if rest == 0 then v.num else v.num - 1)
    case Create(id, ino, n) =>
      && At(v, id, Entered(Creation)) && ino !in v.now.links && n > 0
      && w == Go(v, id, Leaving).(now := SetLinks(v.now, ino, n))
    case End(id) => At(v, id, Leaving) && w == v.(ops := v.ops - {id})
    case Link(ino) =>
      && ino in v.now.links
      && w == (if v.now.links[ino] == 0 then Unlisted(v, ino) else v)
              .(now := SetLinks(v.now, ino, v.now.links[ino] + 1))
    case Evict(ino) =>
      && ino in v.now.links && v.now.links[ino] == 0
      && w == Unlisted(v, ino).(now := Inodes(v.now.links - {ino}, v.now.lost - {ino}))
    case Checkpoint(sh) =>
      && v.ops == map[] && v.num >= 0 && Possible(sh)
      && PackAt(g, v.disk, w.disk, Other(g, base, v.start), v.list, v.num, sh)
      && w == v.(disk := w.disk, start := Other(g, base, v.start), h := HeaderOf(g, sh, v.num),
                 kept := v.list, before := v.now)
    case Attempt =>
      && AgreeOutside(v.disk, w.disk, Other(g, base, v.start), Other(g, base, v.start) + g.blocksPerSeg)
      && w == v.(disk := w.disk)
    case Mount(stuck) =>
      && v.h.startSum >= 1 + g.payload
      && var r := Recovered(g, v.disk, v.start, v.h, stuck);
         && r.ok
         && w == v.(list := [], num := 0, ops := map[],
                    now := v.before.(links := map i | i in v.before.links && i !in r.inos :: v.before.links[i]))
  }

  /** The orphans listed and those lost are exactly the inodes without links. */
  ghost predicate Accounted(list: seq<nat>, i: Inodes) {
    && Distinct(list)
    && (forall x :: x in list || x in i.lost <==> x in i.links && i.links[x] == 0)
    && (forall x :: x in list ==> x !in i.lost)
  }

  ghost predicate Inv(g: Geometry, base: nat, v: Volume)
    requires Sane(g)
  {
    && v.num == |v.list| + |Holders(v.ops)| && v.num <= MaxOrphans(g) && Accounted(v.list, v.now)
    && (v.start == base || v.start == base + g.blocksPerSeg)
    && Stored(g, v.disk, v.start, v.h, v.kept) && Accounted(v.kept, v.before)
  }

  /** A volume just made or mounted: no orphan anywhere. */
  ghost predicate Init(g: Geometry, base: nat, v: Volume)
    requires Sane(g)
  {
    && v.list == [] && v.num == 0 && v.ops == map[] && Accounted([], v.now)
    && v.start == base && Stored(g, v.disk, v.start, v.h, []) && v.kept == [] && v.before == v.now
  }

  lemma HoldersSet(ops: map<nat, Point>, id: nat, p: Point)
    ensures |Holders(ops[id := p])| ==
            |Holders(ops)| + (if Holds(p) then 1 else 0) - if id in ops && Holds(ops[id]) then 1 else 0
  {
    var was, now := Holders(ops), Holders(ops[id := p]);
    assert now == if Holds(p) then was + {id} else was - {id};
  }

  lemma HoldersLess(ops: map<nat, Point>, id: nat)
    requires id in ops && !Holds(ops[id])
    ensures Holders(ops - {id}) == Holders(ops)
  {
  }

  lemma HoldersNone()
    ensures |Holders(map[])| == 0
  {
    assert Holders(map[]) == {};
  }

  /** Only an inode without links is listed. */
  lemma NotListed(list: seq<nat>, i: Inodes, ino: nat)
    requires Accounted(list, i) && (ino !in i.links || i.links[ino] > 0)
    ensures ino !in list && ino !in i.lost
  {
  }

  lemma AccountAdd(list: seq<nat>, i: Inodes, ino: nat)
    requires Accounted(list, i) && ino !in list
    ensures Accounted(list + [ino], SetLinks(i, ino, 0))
  {
  }

  lemma AccountSet(list: seq<nat>, i: Inodes, ino: nat, n: nat)
    requires Accounted(list, i) && ino !in list && n > 0
    ensures Accounted(list, SetLinks(i, ino, n))
  {
  }

  lemma AccountLose(list: seq<nat>, i: Inodes, ino: nat)
    requires Accounted(list, i) && ino !in i.links
    ensures Accounted(list, Inodes(i.links[ino := 0], i.lost + {ino}))
  {
  }

  lemma AccountOut(list: seq<nat>, i: Inodes, ino: nat, n: nat)
    requires Accounted(list, i) && n > 0
    ensures Accounted(Without(list, ino), SetLinks(i, ino, n))
    ensures Accounted(Without(list, ino), Inodes(i.links - {ino}, i.lost - {ino}))
    ensures |Without(list, ino)| == |list| - if ino in list then 1 else 0
  {
    WithoutKeeps(list, ino);
  }

  lemma StoredFrame(g: Geometry, base: nat, disk: Disk, disk': Disk, start: nat, h: Header, list: seq<nat>)
    requires Sane(g) && Stored(g, disk, start, h, list) && (start == base || start == base + g.blocksPerSeg)
    requires AgreeOutside(disk, disk', Other(g, base, start), Other(g, base, start) + g.blocksPerSeg)
    ensures Stored(g, disk', start, h, list)
  {
    hide BlocksFor, HoldsList;
    HoldsFrame(g, disk, disk', start + 1 + g.payload, list, BlocksFor(g, |list|));
  }

  lemma InvNext(g: Geometry, base: nat, v: Volume, w: Volume, step: Step)
    requires Sane(g) && Inv(g, base, v) && Next(g, base, v, w, step)
    ensures Inv(g, base, w)
  {
    hide Inv, Next;
    match step
    case Checkpoint(sh) => InvCheckpoint(g, base, v, w, sh);
    case Attempt => InvAttempt(g, base, v, w);
    case Mount(stuck) => InvMount(g, base, v, w, stuck);
    case _ => InvMemory(g, base, v, w, step);
  }

  predicate Moves(step: Step) {
    step.Begin? || step.Reserve? || step.GiveBack? || step.Fail? || step.Skip? || step.End?
  }

  /** Steps of an operation that leave list and inodes alone. */
  lemma InvMoves(g: Geometry, base: nat, v: Volume, w: Volume, step: Step)
    requires Sane(g) && Inv(g, base, v) && Moves(step) && Next(g, base, v, w, step)
    ensures Inv(g, base, w)
  {
    hide MaxOrphans, Stored, Accounted, Holders;
    if step.End? {
      HoldersLess(v.ops, step.id);
    } else {
      HoldersSet(v.ops, step.id, w.ops[step.id]);
    }
  }

  /** An inode without links, one that lost them or never had any, is listed with the reservation held. */
  lemma InvAdds(g: Geometry, base: nat, v: Volume, w: Volume, step: Step)
    requires Sane(g) && Inv(g, base, v) && (step.Drop? || step.Spawn?) && Next(g, base, v, w, step)
    ensures Inv(g, base, w)
  {
    hide MaxOrphans, Stored, Accounted, Holders, SetLinks;
    HoldersSet(v.ops, step.id, Leaving);
    NotListed(v.list, v.now, step.ino);
    var rest := if step.Drop? then v.now.links[step.ino] - step.n else 0;
    if rest > 0 { AccountSet(v.list, v.now, step.ino, rest); } else { AccountAdd(v.list, v.now, step.ino); }
  }

  lemma InvFresh(g: Geometry, base: nat, v: Volume, w: Volume, step: Step)
    requires Sane(g) && Inv(g, base, v) && (step.Lose? || step.Create?) && Next(g, base, v, w, step)
    ensures Inv(g, base, w)
  {
    hide MaxOrphans, Stored, Accounted, Holders, SetLinks;
    HoldersSet(v.ops, step.id, Leaving);
    NotListed(v.list, v.now, step.ino);
    if step.Lose? {
      AccountLose(v.list, v.now, step.ino);
    } else {
      AccountSet(v.list, v.now, step.ino, step.n);
    }
  }

  /** An inode gets a link again, or is deleted: either way it is no orphan any more. */
  lemma InvLinks(g: Geometry, base: nat, v: Volume, w: Volume, step: Step)
    requires Sane(g) && Inv(g, base, v) && (step.Link? || step.Evict?) && Next(g, base, v, w, step)
    ensures Inv(g, base, w)
  {
    hide MaxOrphans, Stored, Accounted, Holders, SetLinks, Without;
    var n := v.now.links[step.ino];
    AccountOut(v.list, v.now, step.ino, n + 1);
    if n > 0 {
      NotListed(v.list, v.now, step.ino);
      AccountSet(v.list, v.now, step.ino, n + 1);
    }
  }

  lemma InvAttempt(g: Geometry, base: nat, v: Volume, w: Volume)
    requires Sane(g) && Inv(g, base, v) && Next(g, base, v, w, Attempt)
    ensures Inv(g, base, w)
  {
    hide MaxOrphans, Stored, AgreeOutside, Accounted;
    StoredFrame(g, base, v.disk, w.disk, v.start, v.h, v.kept);
  }

  lemma InvMemory(g: Geometry, base: nat, v: Volume, w: Volume, step: Step)
    requires Sane(g) && Inv(g, base, v) && !step.Checkpoint? && !step.Attempt? && !step.Mount?
    requires Next(g, base, v, w, step)
    ensures Inv(g, base, w)
  {
    hide Inv, Next;
    if Moves(step) {
      InvMoves(g, base, v, w, step);
    } else if step.Drop? || step.Spawn? {
      InvAdds(g, base, v, w, step);
    } else if step.Lose? || step.Create? {
      InvFresh(g, base, v, w, step);
    } else {
      InvLinks(g, base, v, w, step);
    }
  }

  /** At a checkpoint no operation is under way, so every number counted is a listed orphan. */
  lemma InvCheckpoint(g: Geometry, base: nat, v: Volume, w: Volume, sh: Shape)
    requires Sane(g) && Inv(g, base, v) && Next(g, base, v, w, Checkpoint(sh))
    ensures v.num == |v.list| && Inv(g, base, w)
  {
    HoldersNone();
    hide BlocksFor, HoldsList, MaxOrphans, Agree, AgreeOutside, Accounted, Keeps, Without;
    assert w.start in w.disk;
  }

  lemma InvMount(g: Geometry, base: nat, v: Volume, w: Volume, stuck: set<nat>)
    requires Sane(g) && Inv(g, base, v) && Next(g, base, v, w, Mount(stuck))
    ensures Inv(g, base, w)
    ensures forall x :: x in w.now.links <==> x in v.before.links && x !in v.kept
    ensures forall x :: x in w.now.links && w.now.links[x] == 0 ==> x in v.before.lost
    ensures forall x :: x in w.now.links ==> w.now.links[x] == v.before.links[x]
  {
    PackRecovers(g, v.disk, v.start, v.h, v.kept, stuck);
    BeforeAll(v.kept, stuck);
    hide BlocksFor, Stored, Recovered, Before, MaxOrphans;
    HoldersNone();
    assert Recovered(g, v.disk, v.start, v.h, stuck).inos == v.kept;
  }

  ghost predicate Run(g: Geometry, base: nat, run: seq<Volume>, steps: seq<Step>)
    requires Sane(g)
  {
    && |run| == |steps| + 1 && Init(g, base, run[0])
    && forall i :: 0 <= i < |steps| ==> Next(g, base, run[i], run[i + 1], steps[i])
  }

  lemma {:induction false} RunInv(g: Geometry, base: nat, run: seq<Volume>, steps: seq<Step>, n: nat)
    requires Sane(g) && Run(g, base, run, steps) && n <= |steps|
    ensures Inv(g, base, run[n])
  {
    if n == 0 {
      HoldersNone();
    } else {
      RunInv(g, base, run, steps, n - 1);
      InvNext(g, base, run[n - 1], run[n], steps[n - 1]);
    }
  }

  /**
    In every state of every run a mount would delete, in order, exactly the list of
    the last checkpoint, unless an inode cannot be deleted; and that list has exactly
    the inodes which had no link left then and were not lost.
  */
  lemma OrphansSurvive(g: Geometry, base: nat, run: seq<Volume>, steps: seq<Step>, n: nat, stuck: set<nat>)
    requires Sane(g) && Run(g, base, run, steps) && n <= |steps|
    ensures var v := run[n];
            && v.h.startSum >= 1 + g.payload
            && var r := Recovered(g, v.disk, v.start, v.h, stuck);
               && r.inos == Before(v.kept, stuck) && (r.ok <==> forall x :: x in v.kept ==> x !in stuck)
               && forall x :: x in v.kept <==>
                    x in v.before.links && v.before.links[x] == 0 && x !in v.before.lost
  {
    RunInv(g, base, run, steps, n);
    PackRecovers(g, run[n].disk, run[n].start, run[n].h, run[n].kept, stuck);
  }

  /** No checkpoint of any run is taken with a reservation outstanding, and each takes the list of its moment. */
  lemma NoneReserved(g: Geometry, base: nat, run: seq<Volume>, steps: seq<Step>, n: nat)
    requires Sane(g) && Run(g, base, run, steps) && n < |steps| && steps[n].Checkpoint?
    ensures run[n].num == |run[n].list| && run[n + 1].kept == run[n].list && run[n + 1].before == run[n].now
  {
    RunInv(g, base, run, steps, n);
    InvCheckpoint(g, base, run[n], run[n + 1], steps[n].sh);
  }

  // ---------------------------------------------------------- what can be achieved

  lemma {:induction false} HoldExists(g: Geometry, disk: Disk, start: nat, list: seq<nat>, count: nat)
    returns (disk': Disk)
    requires g.perBlock > 0
    ensures HoldsList(g, disk', start, list, count)
    ensures AgreeOutside(disk, disk', start, start + BlocksFor(g, |list|))
    decreases |list|
  {
    hide HoldsList, BlocksFor;
    if list == [] {
      NothingHeld(g, disk, start, count);
      NoBlocks(g);
      disk' := disk;
    } else {
      var k := (|list| - 1) / g.perBlock;
      Arith.Division(|list| - 1, g.perBlock);
      Arith.NonNeg(k, g.perBlock);
      var cut := k * g.perBlock;
      var d := HoldExists(g, disk, start, list[..cut], count);
      OneMore(g, d, start, list[..cut], k, list[cut..], count);
      assert list[..cut] + list[cut..] == list;
      disk' := d[start + k := OrphanBlock(list[cut..], k + 1, count)];
    }
  }

  lemma {:induction false} FillExists(disk: Disk, lo: nat, hi: nat, b: Block) returns (disk': Disk)
    requires lo <= hi
    ensures Filled(disk', lo, hi, b) && AgreeOutside(disk, disk', lo, hi)
    decreases hi - lo
  {
    disk' := disk;
    if lo < hi {
      var d := FillExists(disk, lo, hi - 1, b);
      disk' := d[hi - 1 := b];
    }
  }

  lemma FrontExists(g: Geometry, disk: Disk, start: nat, h: Header, keep: bool, natBits: nat) returns (disk': Disk)
    requires 1 + g.payload <= h.total <= g.blocksPerSeg && (keep ==> h.total + natBits <= g.blocksPerSeg)
    ensures FrontAt(g, disk, disk', start, h, keep, natBits)
  {
    var d := disk;
    if keep { d := FillExists(disk, start + g.blocksPerSeg - natBits, start + g.blocksPerSeg, NatBits); }
    var e := FillExists(d, start, start + 1, Head(h));
    disk' := FillExists(e, start + 1, start + 1 + g.payload, Payload);
  }

  lemma BackExists(disk: Disk, from: nat, n: nat, h: Header) returns (disk': Disk)
    ensures Filled(disk', from, from + n, Summary) && Filled(disk', from + n, from + n + 1, Head(h))
    ensures AgreeOutside(disk, disk', from, from + n + 1)
  {
    var d := FillExists(disk, from, from + n, Summary);
    disk' := FillExists(d, from + n, from + n + 1, Head(h));
  }

  lemma PackExists(g: Geometry, disk: Disk, start: nat, list: seq<nat>, num: nat, sh: Shape) returns (disk': Disk)
    requires Sane(g) && |list| <= num <= MaxOrphans(g) && Possible(sh)
    ensures PackAt(g, disk, disk', start, list, num, sh)
  {
    HeaderFits(g, sh, num);
    BlocksMonotone(g, |list|, num);
    hide BlocksFor, MaxOrphans, HeaderOf, Keeps, HoldsList, Filled, FrontAt, AgreeOutside;
    var h := HeaderOf(g, sh, num);
    var at := start + 1 + g.payload;
    var front := FrontExists(g, disk, start, h, Keeps(g, sh, num), sh.natBits);
    var orphans := HoldExists(g, front, at, list, BlocksFor(g, num));
    disk' := BackExists(orphans, start + h.startSum, h.total - 1 - h.startSum, h);
    MiddleKept(g, front, orphans, disk', at, list, BlocksFor(g, num), start + h.total);
    FrontKept(g, disk, front, disk', start, h, Keeps(g, sh, num), sh.natBits);
  }

  /** With no operation under way a checkpoint of any shape can be taken. */
  lemma CanCheckpoint(g: Geometry, base: nat, v: Volume, sh: Shape) returns (w: Volume)
    requires Sane(g) && Inv(g, base, v) && v.ops == map[] && Possible(sh)
    ensures Next(g, base, v, w, Checkpoint(sh))
  {
    HoldersNone();
    var d := PackExists(g, v.disk, Other(g, base, v.start), v.list, v.num, sh);
    hide PackAt, Stored, Accounted;
    w := v.(disk := d, start := Other(g, base, v.start), h := HeaderOf(g, sh, v.num), kept := v.list, before := v.now);
  }

  /** A mount is always possible, and no inode stands in its way if each can be deleted. */
  lemma CanMount(g: Geometry, base: nat, v: Volume) returns (w: Volume)
    requires Sane(g) && Inv(g, base, v)
    ensures Next(g, base, v, w, Mount({}))
  {
    PackRecovers(g, v.disk, v.start, v.h, v.kept, {});
    hide Recovered, BlocksFor, HoldsList;
    var r := Recovered(g, v.disk, v.start, v.h, {});
    w := v.(list := [], num := 0, ops := map[],
            now := v.before.(links := map i | i in v.before.links && i !in r.inos :: v.before.links[i]));
  }

  /** At the limit an unlink gives up, and a temporary file or a failed creation leaves an inode that has failed. */
  lemma Refused(g: Geometry, base: nat, v: Volume, w: Volume, id: nat)
    requires Sane(g) && Next(g, base, v, w, Reserve(id)) && v.num >= MaxOrphans(g)
    ensures w.ops == v.ops[id := if v.ops[id] == Entered(Removal) then Leaving else Failing] && w.num == v.num
  {
  }

  /** The steps of an unlink that takes the last link, below the limit of orphans. */
  lemma CanUnlink(g: Geometry, base: nat, v: Volume, id: nat, ino: nat) returns (run: seq<Volume>, steps: seq<Step>)
    requires Sane(g) && id !in v.ops && ino in v.now.links && v.now.links[ino] > 0 && v.num < MaxOrphans(g)
    requires ino !in v.list
    ensures Steps(g, base, run, steps) && run[0] == v
    ensures var w := run[|steps|];
            w == v.(num := v.num + 1, list := v.list + [ino], now := SetLinks(v.now, ino, 0))
  {
    hide MaxOrphans;
    var n := v.now.links[ino];
    steps := [Begin(id, Removal), Reserve(id), Drop(id, ino, n), End(id)];
    var a := Go(v, id, Entered(Removal));
    var b := Go(a, id, Holding(Removal)).(num := a.num + 1);
    var c := Go(b, id, Leaving).(now := SetLinks(b.now, ino, 0), list := Listed(b.list, ino));
    var d := c.(ops := c.ops - {id});
    assert d.ops == v.ops;
    run := [v, a, b, c, d];
  }

  ghost predicate Steps(g: Geometry, base: nat, run: seq<Volume>, steps: seq<Step>)
    requires Sane(g)
  {
    |run| == |steps| + 1 && forall i :: 0 <= i < |steps| ==> Next(g, base, run[i], run[i + 1], steps[i])
  }

  /**
    From every quiet state of every run below the limit, an inode can lose its last
    link, be listed by a checkpoint and be gone after a crash and a mount, with every
    other inode that has links still there.
  */
  lemma Removes(g: Geometry, base: nat, run: seq<Volume>, steps: seq<Step>, n: nat, ino: nat, sh: Shape)
    returns (unlinked: Volume, saved: Volume, mounted: Volume)
    requires Sane(g) && Run(g, base, run, steps) && n <= |steps| && run[n].ops == map[] && Possible(sh)
    requires ino in run[n].now.links && run[n].now.links[ino] > 0 && run[n].num < MaxOrphans(g)
    ensures exists r, s :: Steps(g, base, r, s) && r[0] == run[n] && r[|s|] == unlinked
    ensures Next(g, base, unlinked, saved, Checkpoint(sh)) && Next(g, base, saved, mounted, Mount({}))
    ensures ino !in mounted.now.links
    ensures forall x :: x != ino && x in run[n].now.links && run[n].now.links[x] > 0 ==>
              x in mounted.now.links && mounted.now.links[x] == run[n].now.links[x]
  {
    RunInv(g, base, run, steps, n);
    hide Next, MaxOrphans, Stored;
    var v := run[n];
    NotListed(v.list, v.now, ino);
    var r, s := CanUnlink(g, base, v, 0, ino);
    unlinked := r[|s|];
    StepsInv(g, base, r, s, |s|);
    saved := CanCheckpoint(g, base, unlinked, sh);
    InvNext(g, base, unlinked, saved, Checkpoint(sh));
    mounted := CanMount(g, base, saved);
    Saves(g, base, unlinked, saved, mounted, sh);
  }

  lemma Saves(g: Geometry, base: nat, v: Volume, w: Volume, m: Volume, sh: Shape)
    requires Sane(g) && Inv(g, base, w)
    requires Next(g, base, v, w, Checkpoint(sh)) && Next(g, base, w, m, Mount({}))
    ensures forall x :: x in m.now.links <==> x in v.now.links && x !in v.list
    ensures forall x :: x in m.now.links ==> m.now.links[x] == v.now.links[x]
  {
    hide Next, Inv;
    CheckpointTakes(g, base, v, w, sh);
    InvMount(g, base, w, m, {});
  }

  lemma CheckpointTakes(g: Geometry, base: nat, v: Volume, w: Volume, sh: Shape)
    requires Sane(g) && Next(g, base, v, w, Checkpoint(sh))
    ensures w.kept == v.list && w.before == v.now
  {
    hide PackAt;
  }

  lemma {:induction false} StepsInv(g: Geometry, base: nat, run: seq<Volume>, steps: seq<Step>, n: nat)
    requires Sane(g) && Steps(g, base, run, steps) && Inv(g, base, run[0]) && n <= |steps|
    ensures Inv(g, base, run[n])
  {
    hide Inv, Next;
    if n > 0 {
      StepsInv(g, base, run, steps, n - 1);
      assert Next(g, base, run[n - 1], run[n - 1 + 1], steps[n - 1]);
      InvNext(g, base, run[n - 1], run[n], steps[n - 1]);
    }
  }

  /** After a mount the only inodes without links are those that were lost. */
  lemma MountCleans(g: Geometry, base: nat, run: seq<Volume>, steps: seq<Step>, n: nat)
    requires Sane(g) && Run(g, base, run, steps) && n < |steps| && steps[n].Mount?
    ensures var was, now := run[n].before, run[n + 1].now;
            && (forall x :: x in now.links <==> x in was.links && (was.links[x] > 0 || x in was.lost))
            && (forall x :: x in now.links ==> now.links[x] == was.links[x])
  {
    RunInv(g, base, run, steps, n);
    InvMount(g, base, run[n], run[n + 1], steps[n].stuck);
    BeforeAll(run[n].kept, steps[n].stuck);
  }
}
