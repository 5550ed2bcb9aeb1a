/**
  Two alternating checkpoint packs, and the shadow copies of the NAT and SIT
  blocks that a pack's version bitmap selects (checkpoint.c, node.h, segment.h).

  The file system is a step machine over a disk with a volatile write cache.
  Any cached block may reach the medium at any time and in any order, power may
  fail between any two steps, and a failed attempt may be followed by a remount
  that still sees the cache.  The footer is written after a cache flush and is
  durable by itself (PREFLUSH and FUA: barriers on).

  A checksum is ideal: only a block that was written as a checkpoint block
  reads back as one.
*/
module Checkpoint {

  import opened Options
  import opened Widths

  const CP_PACKS: nat := 2
  const S64: nat := 0x8000_0000_0000_0000

  /** blocks_per_seg, and how many shadowed NAT and SIT blocks there are. */
  datatype Geometry = Geometry(blocksPerSeg: nat, shadows: nat)

  /** A block of a pack, or one of the two copies of a shadowed block. */
  datatype Addr = Pack(pack: nat, index: nat) | Shadow(off: nat, copy: bool)

  /** The checkpoint block: version, cp_pack_total_block_count, NAT/SIT version bitmap, the rest. */
  datatype Ckpt = Ckpt(ver: nat, total: nat, bitmap: seq<bool>, rest: nat)

  datatype Block = Blank | CkptBlock(ckpt: Ckpt) | Data(data: nat)

  type Disk = map<Addr, Block>

  function At(d: Disk, a: Addr): Block { if a in d then d[a] else Blank }

  /** One checkpoint: its block, the pack blocks between header and footer, the NAT/SIT contents it stands for. */
  datatype Image = Image(ckpt: Ckpt, body: seq<nat>, meta: seq<nat>)

  // ------------------------------------------------------------- mounting

  /** ver_after: the signed difference of two 64-bit versions. */
  predicate VerAfter(a: nat, b: nat)
    requires a < U64 && b < U64
  {
    0 < (a - b) % U64 < S64
  }

  /** validate_checkpoint: header and footer are checkpoint blocks of the same version. */
  function Validate(g: Geometry, d: Disk, pack: nat): Option<Ckpt> {
    match At(d, Pack(pack, 0))
    case CkptBlock(c) =>
      if c.total > g.blocksPerSeg || c.total <= CP_PACKS then None
      else (
        match At(d, Pack(pack, c.total - 1))
        case CkptBlock(f) => if f.ver == c.ver then Some(c) else None
        case _ => None)
    case _ => None
  }

  /** f2fs_get_valid_checkpoint: the pack to use and its checkpoint. */
  function Select(g: Geometry, d: Disk): Option<(nat, Ckpt)> {
    var cp1, cp2 := Validate(g, d, 1), Validate(g, d, 2);
    if cp1.Some? && cp2.Some? then
      if VerAfter(cp2.value.ver % U64, cp1.value.ver % U64) then Some((2, cp2.value)) else Some((1, cp1.value))
    else if cp1.Some? then Some((1, cp1.value))
    else if cp2.Some? then Some((2, cp2.value))
    else None
  }

  /** What a mount then reads: the blocks of the pack, and each NAT/SIT block through the bitmap. */
  datatype Mounted = Mounted(pack: nat, ckpt: Ckpt, body: seq<Block>, meta: seq<Block>)

  function ReadBody(d: Disk, pack: nat, n: nat): seq<Block> {
    seq(n, i requires 0 <= i < n => At(d, Pack(pack, 1 + i)))
  }

  function ReadMeta(d: Disk, bitmap: seq<bool>): seq<Block> {
    seq(|bitmap|, i requires 0 <= i < |bitmap| => At(d, Shadow(i, bitmap[i])))
  }

  function Mount(g: Geometry, d: Disk): Option<Mounted> {
    match Select(g, d)
    case None => None
    case Some((p, c)) =>
      if c.total <= CP_PACKS then None
      else Some(Mounted(p, c, ReadBody(d, p, c.total - CP_PACKS), ReadMeta(d, c.bitmap)))
  }

  /** The mounted state that stands for checkpoint `im` in pack `p`. */
  function View(p: nat, im: Image): Mounted {
    Mounted(p, im.ckpt,
            seq(|im.body|, i requires 0 <= i < |im.body| => Data(im.body[i])),
            seq(|im.meta|, i requires 0 <= i < |im.meta| => Data(im.meta[i])))
  }

  // ------------------------------------------------------- the step machine

  datatype Phase =
    | Down
    | Idle(pack: nat, cur: Ckpt)
    | Writing(pack: nat, cur: Ckpt, image: Image, written: set<Addr>)
    | Flushed(pack: nat, cur: Ckpt, image: Image)
    | Stopped                                       // cp_error

  /** `committed` is the pack and image whose footer last became durable. */
  datatype State = State(durable: Disk, cache: Disk, phase: Phase, pack: nat, committed: Image)

  function OtherPack(p: nat): nat { if p == 1 then 2 else 1 }

  /** What reads return while the device still has its cache. */
  function Seen(s: State): Disk { s.durable + s.cache }

  ghost predicate WellFormed(g: Geometry, im: Image) {
    && CP_PACKS < im.ckpt.total <= g.blocksPerSeg
    && |im.body| == im.ckpt.total - CP_PACKS
    && |im.ckpt.bitmap| == g.shadows && |im.meta| == g.shadows
    && im.ckpt.ver < U64
  }

  /** The blocks do_checkpoint writes before the footer: flipped shadow copies, header, pack body. */
  ghost predicate ToWrite(cur: Ckpt, im: Image, pack: nat, a: Addr) {
    match a
    case Shadow(off, copy) =>
      off < |im.ckpt.bitmap| == |cur.bitmap| && im.ckpt.bitmap[off] != cur.bitmap[off] && copy == im.ckpt.bitmap[off]
    case Pack(p, i) => p == pack && i < im.ckpt.total - 1
  }

  ghost function Contents(im: Image, a: Addr): Block {
    match a
    case Shadow(off, _) => if off < |im.meta| then Data(im.meta[off]) else Blank
    case Pack(_, i) => if i == 0 then CkptBlock(im.ckpt) else if i - 1 < |im.body| then Data(im.body[i - 1]) else Blank
  }

  /** A new checkpoint: next version; a NAT/SIT block keeps its copy and contents or moves to the other copy. */
  ghost predicate Begin(g: Geometry, s: State, s': State, im: Image) {
    && s.phase.Idle? && WellFormed(g, im) && |s.phase.cur.bitmap| == g.shadows
    && im.ckpt.ver == s.phase.cur.ver + 1
    && (forall i :: 0 <= i < g.shadows && im.ckpt.bitmap[i] == s.phase.cur.bitmap[i] ==>
          Data(im.meta[i]) == At(Seen(s), Shadow(i, im.ckpt.bitmap[i])))
    && s' == s.(phase := Writing(s.phase.pack, s.phase.cur, im, {}))
  }

  ghost predicate WriteBlock(s: State, s': State, a: Addr) {
    && s.phase.Writing?
    && ToWrite(s.phase.cur, s.phase.image, OtherPack(s.phase.pack), a)
    && s' == s.(cache := s.cache[a := Contents(s.phase.image, a)],
                phase := s.phase.(written := s.phase.written + {a}))
  }

  ghost predicate Destage(s: State, s': State, a: Addr) {
    && a in s.cache
    && s' == s.(durable := s.durable[a := s.cache[a]], cache := s.cache - {a})
  }

  ghost predicate Flush(s: State, s': State) {
    && s.phase.Writing?
    && (forall a :: ToWrite(s.phase.cur, s.phase.image, OtherPack(s.phase.pack), a) ==> a in s.phase.written)
    && s' == s.(durable := Seen(s), cache := map[], phase := Flushed(s.phase.pack, s.phase.cur, s.phase.image))
  }

  /** commit_checkpoint and __set_cp_next_pack: the footer is durable and the packs change roles. */
  ghost predicate Commit(s: State, s': State) {
    && s.phase.Flushed? && s.phase.image.ckpt.total > CP_PACKS
    && var next, im := OtherPack(s.phase.pack), s.phase.image;
    && s' == s.(durable := s.durable[Pack(next, im.ckpt.total - 1) := CkptBlock(im.ckpt)],
                cache := s.cache - {Pack(next, im.ckpt.total - 1)},
                phase := Idle(next, im.ckpt), pack := next, committed := im)
  }

  /** An I/O error stops checkpoints; what was written so far stays where it is. */
  ghost predicate Fail(s: State, s': State) {
    (s.phase.Writing? || s.phase.Flushed?) && s' == s.(phase := Stopped)
  }

  ghost predicate PowerLoss(s: State, s': State) { s' == s.(cache := map[], phase := Down) }

  ghost predicate Unmount(s: State, s': State) { s' == s.(phase := Down) }

  ghost predicate DoMount(g: Geometry, s: State, s': State) {
    && s.phase.Down?
    && (match Mount(g, Seen(s))
        case None => s' == s
        case Some(m) => s' == s.(phase := Idle(m.pack, m.ckpt)))
  }

  ghost predicate Next(g: Geometry, s: State, s': State) {
    || (exists im :: Begin(g, s, s', im))
    || (exists a :: WriteBlock(s, s', a))
    || (exists a :: Destage(s, s', a))
    || Flush(s, s') || Commit(s, s') || Fail(s, s')
    || PowerLoss(s, s') || Unmount(s, s') || DoMount(g, s, s')
  }

  /**
    A formatted volume: one pack holds a checkpoint, and every checkpoint block
    of the other pack is older, by less than half the version space.
  */
  ghost predicate Init(g: Geometry, s: State) {
    && s.phase.Down? && s.cache == map[]
    && (s.pack == 1 || s.pack == 2) && WellFormed(g, s.committed)
    && Stored(g, s.durable, s.pack, s.committed)
    && Younger(s.durable, s.pack, s.committed.ckpt.ver)
    && Older(s.durable, OtherPack(s.pack), s.committed.ckpt.ver)
  }

  // ---------------------------------------------------------- the invariant

  /** Disk `d` holds image `im` completely, in pack `p` and in the copies its bitmap names. */
  ghost predicate Stored(g: Geometry, d: Disk, p: nat, im: Image)
    requires WellFormed(g, im)
  {
    && (forall i :: 0 <= i < im.ckpt.total - 1 ==> At(d, Pack(p, i)) == Contents(im, Pack(p, i)))
    && At(d, Pack(p, im.ckpt.total - 1)) == CkptBlock(im.ckpt)
    && (forall i :: 0 <= i < |im.ckpt.bitmap| ==>
          At(d, Shadow(i, im.ckpt.bitmap[i])) == Contents(im, Shadow(i, im.ckpt.bitmap[i])))
  }

  /** Beyond the header, pack `p` has no checkpoint block newer than `v`. */
  ghost predicate Younger(d: Disk, p: nat, v: nat) {
    forall i :: i >= 1 && At(d, Pack(p, i)).CkptBlock? ==> At(d, Pack(p, i)).ckpt.ver <= v
  }

  /** Beyond the header, pack `p` has only checkpoint blocks older than `v`; its header may be a failed attempt. */
  ghost predicate Older(d: Disk, p: nat, v: nat) {
    && (forall i :: i >= 1 && At(d, Pack(p, i)).CkptBlock? ==> At(d, Pack(p, i)).ckpt.ver < v)
    && (At(d, Pack(p, 0)).CkptBlock? ==>
          var h := At(d, Pack(p, 0)).ckpt.ver; h == v + 1 || (h < v && v - h < S64))
  }

  /** Address `a` belongs to the committed checkpoint. */
  ghost predicate Protected(p: nat, im: Image, a: Addr) {
    match a
    case Pack(q, _) => q == p
    case Shadow(off, copy) => off < |im.ckpt.bitmap| && im.ckpt.bitmap[off] == copy
  }

  /** Nothing that waits in the cache touches the committed checkpoint. */
  ghost predicate Avoids(c: Disk, p: nat, im: Image) {
    forall a :: a in c ==> !Protected(p, im, a)
  }

  /** What was written of image `im` is what a read returns. */
  ghost predicate Progress(s: State, cur: Ckpt, im: Image, written: set<Addr>) {
    forall a :: a in written ==>
      ToWrite(cur, im, OtherPack(s.pack), a) && At(Seen(s), a) == Contents(im, a)
  }

  ghost predicate NextImage(g: Geometry, s: State, im: Image)
    requires WellFormed(g, s.committed)
  {
    && WellFormed(g, im) && im.ckpt.ver == s.committed.ckpt.ver + 1
    && (forall i :: 0 <= i < g.shadows && im.ckpt.bitmap[i] == s.committed.ckpt.bitmap[i] ==>
          im.meta[i] == s.committed.meta[i])
  }

  ghost predicate PhaseInv(g: Geometry, s: State)
    requires WellFormed(g, s.committed)
  {
    match s.phase
    case Idle(p, c) => p == s.pack && c == s.committed.ckpt
    case Writing(p, c, im, written) =>
      p == s.pack && c == s.committed.ckpt && NextImage(g, s, im) && Progress(s, c, im, written)
    case Flushed(p, c, im) =>
      && p == s.pack && c == s.committed.ckpt && NextImage(g, s, im) && s.cache == map[]
      && (forall a :: ToWrite(c, im, OtherPack(p), a) ==> At(s.durable, a) == Contents(im, a))
    case _ => true
  }

  ghost predicate DiskInv(g: Geometry, s: State) {
    && (s.pack == 1 || s.pack == 2) && WellFormed(g, s.committed)
    && Stored(g, s.durable, s.pack, s.committed) && Younger(s.durable, s.pack, s.committed.ckpt.ver)
    && Older(s.durable, OtherPack(s.pack), s.committed.ckpt.ver)
    && Older(s.cache, OtherPack(s.pack), s.committed.ckpt.ver)
    && Avoids(s.cache, s.pack, s.committed)
  }

  ghost predicate Inv(g: Geometry, s: State) { DiskInv(g, s) && PhaseInv(g, s) }

  // ------------------------------------------------------- what there is to mount

  /** A pack is valid: a checkpoint block in front, of a size that fits, and one of the same version as its footer. */
  ghost predicate ValidPack(g: Geometry, d: Disk, p: nat, c: Ckpt) {
    && Pack(p, 0) in d && d[Pack(p, 0)] == CkptBlock(c) && 2 < c.total <= g.blocksPerSeg
    && Pack(p, c.total - 1) in d && var f := d[Pack(p, c.total - 1)]; f.CkptBlock? && f.ckpt.ver == c.ver
  }

  lemma ValidateIff(g: Geometry, d: Disk, p: nat, c: Ckpt)
    ensures Validate(g, d, p) == Some(c) <==> ValidPack(g, d, p, c)
  {
  }

  /** A disk mounts if and only if one of its packs is valid ... */
  lemma MountIff(g: Geometry, d: Disk)
    ensures Mount(g, d).None? <==> forall p, c :: p == 1 || p == 2 ==> !ValidPack(g, d, p, c)
  {
    hide ValidPack, ReadBody, ReadMeta;
    forall p, c
      ensures Validate(g, d, p) == Some(c) <==> ValidPack(g, d, p, c)
    {
      ValidateIff(g, d, p, c);
    }
    ValidTotal(g, d, 1);
    ValidTotal(g, d, 2);
    hide Validate;
  }

  /** ... and of two valid packs as the one later by less than half the version space, the first if they are equal. */
  lemma MountLater(g: Geometry, d: Disk, p: nat, c: Ckpt, p': nat, c': Ckpt)
    requires (p == 1 && p' == 2) || (p == 2 && p' == 1)
    requires ValidPack(g, d, p, c) && ValidPack(g, d, p', c') && c.ver <= c'.ver < U64
    ensures var m := Mount(g, d);
            && m.Some?
            && (c.ver == c'.ver ==> m.value.pack == 1)
            && (0 < c'.ver - c.ver < S64 ==> m.value.pack == p' && m.value.ckpt == c')
            && (c'.ver - c.ver > S64 ==> m.value.pack == p && m.value.ckpt == c)
  {
    ValidateIff(g, d, p, c);
    ValidateIff(g, d, p', c');
    hide Validate, ReadBody, ReadMeta;
  }

  lemma ValidTotal(g: Geometry, d: Disk, p: nat)
    ensures Validate(g, d, p).Some? ==> Validate(g, d, p).value.total > CP_PACKS
  {
  }

  lemma FormattedDisk(g: Geometry, p: nat, im: Image) returns (d: Disk)
    requires WellFormed(g, im)
    ensures Stored(g, d, p, im)
    ensures forall a :: a in d && d[a].CkptBlock? ==> a.Pack? && a.pack == p && d[a].ckpt == im.ckpt
  {
    var footer := Pack(p, im.ckpt.total - 1);
    var pack := set i | 0 <= i < im.ckpt.total :: Pack(p, i);
    var copies := set i | 0 <= i < |im.ckpt.bitmap| :: Shadow(i, im.ckpt.bitmap[i]);
    d := map a | a in pack + copies :: if a == footer then CkptBlock(im.ckpt) else Contents(im, a);
    assert forall i: nat :: i < im.ckpt.total ==> Pack(p, i) in pack;
    assert forall i: nat :: i < |im.ckpt.bitmap| ==> Shadow(i, im.ckpt.bitmap[i]) in copies;
  }

  /** Every checkpoint can be what a volume is formatted with, in either pack. */
  lemma Formats(g: Geometry, p: nat, im: Image) returns (s: State)
    requires (p == 1 || p == 2) && WellFormed(g, im)
    ensures Init(g, s) && s.pack == p && s.committed == im && Run(g, [s])
  {
    hide Stored, WellFormed;
    var d := FormattedDisk(g, p, im);
    s := State(d, map[], Down, p, im);
  }

  // -------------------------------------------------------------- the proof

  lemma SelectsStored(g: Geometry, d: Disk, p: nat, im: Image)
    requires p == 1 || p == 2
    requires WellFormed(g, im) && Stored(g, d, p, im) && Older(d, OtherPack(p), im.ckpt.ver)
    ensures Select(g, d) == Some((p, im.ckpt))
  {
    assert At(d, Pack(p, 0)) == Contents(im, Pack(p, 0));
    assert Validate(g, d, p) == Some(im.ckpt);
    var other := Validate(g, d, OtherPack(p));
    assert other.Some? ==> other.value.ver < im.ckpt.ver && im.ckpt.ver - other.value.ver < S64;
  }

  /** A disk that stores `im` and has an older other pack mounts as exactly `im`. */
  lemma MountsStored(g: Geometry, d: Disk, p: nat, im: Image)
    requires p == 1 || p == 2
    requires WellFormed(g, im) && Stored(g, d, p, im) && Older(d, OtherPack(p), im.ckpt.ver)
    ensures Mount(g, d) == Some(View(p, im))
  {
    SelectsStored(g, d, p, im);
    hide Select, Validate, Older;
    assert ReadBody(d, p, im.ckpt.total - CP_PACKS) == View(p, im).body by {
      forall i | 0 <= i < |im.body|
        ensures At(d, Pack(p, 1 + i)) == Data(im.body[i])
      {
        assert At(d, Pack(p, 1 + i)) == Contents(im, Pack(p, 1 + i));
      }
    }
    assert ReadMeta(d, im.ckpt.bitmap) == View(p, im).meta;
  }

  /** Reading through the cache sees the same committed checkpoint. */
  lemma SeenStored(g: Geometry, s: State)
    requires DiskInv(g, s)
    ensures Stored(g, Seen(s), s.pack, s.committed)
    ensures Older(Seen(s), OtherPack(s.pack), s.committed.ckpt.ver)
  {
    var d, im := Seen(s), s.committed;
    assert forall a :: Protected(s.pack, im, a) ==> At(d, a) == At(s.durable, a);
    forall i | 0 <= i < im.ckpt.total
      ensures At(d, Pack(s.pack, i)) == At(s.durable, Pack(s.pack, i))
    {
      assert Protected(s.pack, im, Pack(s.pack, i));
    }
    forall i | 0 <= i < |im.ckpt.bitmap|
      ensures At(d, Shadow(i, im.ckpt.bitmap[i])) == At(s.durable, Shadow(i, im.ckpt.bitmap[i]))
    {
      assert Protected(s.pack, im, Shadow(i, im.ckpt.bitmap[i]));
    }
    assert forall a :: At(d, a) == At(s.durable, a) || At(d, a) == At(s.cache, a);
  }

  lemma InvInit(g: Geometry, s: State)
    requires Init(g, s)
    ensures Inv(g, s)
  {
  }

  /** A mount finds the committed checkpoint and goes on from it. */
  lemma InvMount(g: Geometry, s: State, s': State)
    requires Inv(g, s) && DoMount(g, s, s')
    ensures Inv(g, s') && s'.phase == Idle(s.pack, s.committed.ckpt)
    ensures s'.durable == s.durable && s'.pack == s.pack && s'.committed == s.committed
  {
    SeenStored(g, s);
    MountsStored(g, Seen(s), s.pack, s.committed);
  }

  lemma InvBegin(g: Geometry, s: State, s': State, im: Image)
    requires Inv(g, s) && Begin(g, s, s', im)
    ensures Inv(g, s')
  {
    SeenStored(g, s);
    forall i | 0 <= i < g.shadows && im.ckpt.bitmap[i] == s.committed.ckpt.bitmap[i]
      ensures im.meta[i] == s.committed.meta[i]
    {
      assert At(Seen(s), Shadow(i, s.committed.ckpt.bitmap[i])) ==
             Contents(s.committed, Shadow(i, s.committed.ckpt.bitmap[i]));
    }
  }

  /** Putting one more block on a disk or in a cache keeps the other pack's blocks old, if that block is. */
  lemma OlderUpdate(d: Disk, a: Addr, b: Block, p: nat, v: nat)
    requires Older(d, p, v) && Older(map[a := b], p, v)
    ensures Older(d[a := b], p, v)
  {
    assert forall x :: At(d[a := b], x) == if x == a then At(map[a := b], x) else At(d, x);
  }

  lemma OlderPart(d: Disk, a: Addr, p: nat, v: nat)
    requires Older(d, p, v) && a in d
    ensures Older(map[a := d[a]], p, v) && Older(d - {a}, p, v)
  {
    assert forall x :: At(map[a := d[a]], x) == if x == a then At(d, a) else Blank;
    assert forall x :: At(d - {a}, x) == if x == a then Blank else At(d, x);
  }

  lemma InvWrite(g: Geometry, s: State, s': State, a: Addr)
    requires Inv(g, s) && WriteBlock(s, s', a)
    ensures Inv(g, s')
  {
    var im := s.phase.image;
    assert DiskInv(g, s') by {
      assert !Protected(s.pack, s.committed, a);
      assert Older(map[a := Contents(im, a)], OtherPack(s.pack), s.committed.ckpt.ver);
      OlderUpdate(s.cache, a, Contents(im, a), OtherPack(s.pack), s.committed.ckpt.ver);
    }
    assert Progress(s', s.phase.cur, im, s'.phase.written) by {
      assert forall b :: At(Seen(s'), b) == if b == a then Contents(im, a) else At(Seen(s), b);
    }
  }

  lemma InvDestage(g: Geometry, s: State, s': State, a: Addr)
    requires Inv(g, s) && Destage(s, s', a)
    ensures Inv(g, s')
  {
    var q, v := OtherPack(s.pack), s.committed.ckpt.ver;
    assert DiskInv(g, s') by {
      OlderPart(s.cache, a, q, v);
      OlderUpdate(s.durable, a, s.cache[a], q, v);
      assert !Protected(s.pack, s.committed, a);
      assert forall b :: Protected(s.pack, s.committed, b) ==> At(s'.durable, b) == At(s.durable, b);
      StoredFrame(g, s.durable, s'.durable, s.pack, s.committed);
    }
    assert PhaseInv(g, s') by {
      assert forall b :: At(Seen(s'), b) == At(Seen(s), b);
    }
  }

  lemma StoredFrame(g: Geometry, d: Disk, d': Disk, p: nat, im: Image)
    requires WellFormed(g, im) && Stored(g, d, p, im)
    requires forall b :: Protected(p, im, b) ==> At(d', b) == At(d, b)
    ensures Stored(g, d', p, im)
    ensures forall v :: Younger(d, p, v) ==> Younger(d', p, v)
  {
    forall i: nat
      ensures At(d', Pack(p, i)) == At(d, Pack(p, i))
    {
      assert Protected(p, im, Pack(p, i));
    }
    forall i | 0 <= i < |im.ckpt.bitmap|
      ensures At(d', Shadow(i, im.ckpt.bitmap[i])) == At(d, Shadow(i, im.ckpt.bitmap[i]))
    {
      assert Protected(p, im, Shadow(i, im.ckpt.bitmap[i]));
    }
  }

  lemma InvFlush(g: Geometry, s: State, s': State)
    requires Inv(g, s) && Flush(s, s')
    ensures Inv(g, s')
  {
    SeenStored(g, s);
    assert forall b :: Protected(s.pack, s.committed, b) ==> At(s'.durable, b) == At(s.durable, b);
    StoredFrame(g, s.durable, s'.durable, s.pack, s.committed);
  }

  /** Once the footer joins what the flush made durable, the new image is stored completely. */
  lemma CommitStores(g: Geometry, s: State, s': State)
    requires Inv(g, s) && Commit(s, s')
    ensures s'.pack == OtherPack(s.pack) && s'.committed == s.phase.image
    ensures s'.phase == Idle(OtherPack(s.pack), s.phase.image.ckpt)
    ensures Stored(g, s'.durable, OtherPack(s.pack), s.phase.image)
  {
    var im, prev, next := s.phase.image, s.committed, OtherPack(s.pack);
    var footer := Pack(next, im.ckpt.total - 1);
    assert forall b :: b != footer ==> At(s'.durable, b) == At(s.durable, b);
    forall i | 0 <= i < im.ckpt.total - 1
      ensures At(s'.durable, Pack(next, i)) == Contents(im, Pack(next, i))
    {
      assert ToWrite(s.phase.cur, im, next, Pack(next, i));
    }
    forall i | 0 <= i < g.shadows
      ensures At(s'.durable, Shadow(i, im.ckpt.bitmap[i])) == Contents(im, Shadow(i, im.ckpt.bitmap[i]))
    {
      var a := Shadow(i, im.ckpt.bitmap[i]);
      if im.ckpt.bitmap[i] != prev.ckpt.bitmap[i] {
        assert ToWrite(s.phase.cur, im, next, a);
      } else {
        assert At(s.durable, a) == Contents(prev, a);
      }
    }
  }

  /** After the footer, the pack that the new one replaces is the older one. */
  lemma CommitAges(g: Geometry, s: State, s': State)
    requires Inv(g, s) && Commit(s, s')
    ensures Younger(s'.durable, s'.pack, s'.committed.ckpt.ver)
    ensures Older(s'.durable, OtherPack(s'.pack), s'.committed.ckpt.ver)
  {
    var next := OtherPack(s.pack);
    var footer := Pack(next, s.phase.image.ckpt.total - 1);
    assert forall b :: b != footer ==> At(s'.durable, b) == At(s.durable, b);
    assert At(s.durable, Pack(s.pack, 0)) == Contents(s.committed, Pack(s.pack, 0));
    assert forall i :: At(s'.durable, Pack(s.pack, i)) == At(s.durable, Pack(s.pack, i));
  }

  lemma InvCommit(g: Geometry, s: State, s': State)
    requires Inv(g, s) && Commit(s, s')
    ensures Inv(g, s')
  {
    CommitStores(g, s, s');
    CommitAges(g, s, s');
  }

  lemma InvQuiet(g: Geometry, s: State, s': State)
    requires Inv(g, s) && (Fail(s, s') || PowerLoss(s, s') || Unmount(s, s'))
    ensures Inv(g, s')
  {
  }

  lemma InvNext(g: Geometry, s: State, s': State)
    requires Inv(g, s) && Next(g, s, s')
    ensures Inv(g, s')
  {
    if im :| Begin(g, s, s', im) {
      InvBegin(g, s, s', im);
    } else if a :| WriteBlock(s, s', a) {
      InvWrite(g, s, s', a);
    } else if a :| Destage(s, s', a) {
      InvDestage(g, s, s', a);
    } else if Flush(s, s') {
      InvFlush(g, s, s');
    } else if Commit(s, s') {
      InvCommit(g, s, s');
    } else if DoMount(g, s, s') {
      InvMount(g, s, s');
    } else {
      InvQuiet(g, s, s');
    }
  }

  // ----------------------------------------------------------- the theorems

  ghost predicate Run(g: Geometry, run: seq<State>) {
    && |run| > 0 && Init(g, run[0])
    && forall i :: 0 <= i < |run| - 1 ==> Next(g, run[i], run[i + 1])
  }

  lemma {:induction false} RunInv(g: Geometry, run: seq<State>, i: nat)
    requires Run(g, run) && i < |run|
    ensures Inv(g, run[i])
  {
    if i == 0 {
      InvInit(g, run[0]);
    } else {
      RunInv(g, run, i - 1);
      assert Next(g, run[i - 1], run[i - 1 + 1]);
      InvNext(g, run[i - 1], run[i]);
    }
  }

  /**
    Crash safety.  In every state of every run, mounting what is durable (after
    a power failure) and mounting what reads return (after a failed checkpoint)
    both give the checkpoint whose footer last became durable: its pack, its
    blocks, and every NAT and SIT block as that checkpoint wrote it.
  */
  lemma CrashSafe(g: Geometry, run: seq<State>, i: nat)
    requires Run(g, run) && i < |run|
    ensures Mount(g, run[i].durable) == Some(View(run[i].pack, run[i].committed))
    ensures Mount(g, Seen(run[i])) == Some(View(run[i].pack, run[i].committed))
  {
    RunInv(g, run, i);
    MountsStored(g, run[i].durable, run[i].pack, run[i].committed);
    SeenStored(g, run[i]);
    MountsStored(g, Seen(run[i]), run[i].pack, run[i].committed);
  }

  /**
    A step leaves the committed checkpoint alone, or replaces it by its successor
    in the other pack; and a commit does the latter.
  */
  lemma CommitsInOrder(g: Geometry, run: seq<State>, i: nat)
    requires Run(g, run) && i + 1 < |run|
    ensures var s, s' := run[i], run[i + 1];
            var succeeds := && s.phase.Flushed? && s'.committed == s.phase.image
                            && s'.committed.ckpt.ver == s.committed.ckpt.ver + 1 && s'.pack == OtherPack(s.pack);
            && (succeeds || (s'.pack == s.pack && s'.committed == s.committed))
            && (Commit(s, s') ==> succeeds && s'.phase == Idle(s'.pack, s'.committed.ckpt))
  {
    RunInv(g, run, i);
    assert Next(g, run[i], run[i + 1]);
  }

  // ---------------------------------------------------------- what can be achieved

  /** A step of a checkpoint in which nothing goes wrong. */
  ghost predicate Smooth(g: Geometry, s: State, s': State) {
    || (exists im :: Begin(g, s, s', im))
    || (exists a :: WriteBlock(s, s', a))
    || Flush(s, s') || Commit(s, s')
  }

  ghost predicate SmoothRun(g: Geometry, path: seq<State>) {
    |path| > 0 && forall i :: 0 <= i < |path| - 1 ==> Smooth(g, path[i], path[i + 1])
  }

  lemma SmoothThen(g: Geometry, a: seq<State>, b: seq<State>)
    requires SmoothRun(g, a) && SmoothRun(g, b) && a[|a| - 1] == b[0]
    ensures SmoothRun(g, a + b[1..])
  {
    var c := a + b[1..];
    forall i | 0 <= i < |c| - 1
      ensures Smooth(g, c[i], c[i + 1])
    {
      if i >= |a| - 1 { assert Smooth(g, b[i - (|a| - 1)], b[i - (|a| - 1) + 1]); }
    }
  }

  /** Every block of the pack but the footer, and every copy that a flipped bit selects. */
  function AllBlocks(im: Image, pack: nat, n: nat): seq<Addr> {
    seq(if im.ckpt.total > 0 then im.ckpt.total - 1 else 0, i requires 0 <= i => Pack(pack, i)) + Copies(im, n)
  }

  function Copies(im: Image, n: nat): seq<Addr> {
    seq(n, i requires 0 <= i => if i < |im.ckpt.bitmap| then Shadow(i, im.ckpt.bitmap[i]) else Shadow(i, false))
  }

  lemma AllBlocksAre(cur: Ckpt, im: Image, pack: nat, a: Addr)
    requires ToWrite(cur, im, pack, a) && im.ckpt.total > 0
    ensures a in AllBlocks(im, pack, |im.ckpt.bitmap|)
  {
    var all, copies := AllBlocks(im, pack, |im.ckpt.bitmap|), Copies(im, |im.ckpt.bitmap|);
    match a
    case Pack(p, i) => assert all[i] == a;
    case Shadow(off, copy) => assert copies[off] == a && all[im.ckpt.total - 1 + off] == a;
  }

  /** The blocks of a list can be written one after another. */
  lemma {:induction false} WriteAll(g: Geometry, s: State, todo: seq<Addr>) returns (path: seq<State>)
    requires s.phase.Writing?
    ensures SmoothRun(g, path) && path[0] == s
    ensures var t := path[|path| - 1];
            && t == s.(cache := t.cache, phase := t.phase) && t.phase.Writing?
            && t.phase == s.phase.(written := t.phase.written) && s.phase.written <= t.phase.written
            && forall a :: a in todo && ToWrite(s.phase.cur, s.phase.image, OtherPack(s.phase.pack), a) ==>
                 a in t.phase.written
    decreases |todo|
  {
    if todo == [] {
      path := [s];
    } else {
      var a := todo[0];
      assert todo == [a] + todo[1..];
      if ToWrite(s.phase.cur, s.phase.image, OtherPack(s.phase.pack), a) {
        var s' := s.(cache := s.cache[a := Contents(s.phase.image, a)],
                     phase := s.phase.(written := s.phase.written + {a}));
        assert WriteBlock(s, s', a);
        var rest := WriteAll(g, s', todo[1..]);
        path := [s] + rest;
        assert SmoothRun(g, [s, s']);
        SmoothThen(g, [s, s'], rest);
        assert [s, s'] + rest[1..] == path;
      } else {
        path := WriteAll(g, s, todo[1..]);
      }
    }
  }

  /** Writing, flushing and the footer, from a state where the attempt has begun. */
  lemma Completes(g: Geometry, s: State) returns (path: seq<State>)
    requires Inv(g, s) && s.phase.Writing?
    ensures SmoothRun(g, path) && path[0] == s
    ensures var t := path[|path| - 1];
            && t.phase == Idle(OtherPack(s.pack), s.phase.image.ckpt)
            && Mount(g, t.durable) == Some(View(OtherPack(s.pack), s.phase.image))
  {
    var im := s.phase.image;
    var writes := WriteAll(g, s, AllBlocks(im, OtherPack(s.pack), |im.ckpt.bitmap|));
    var t1 := writes[|writes| - 1];
    forall a | ToWrite(t1.phase.cur, t1.phase.image, OtherPack(t1.phase.pack), a)
      ensures a in t1.phase.written
    {
      AllBlocksAre(s.phase.cur, im, OtherPack(s.pack), a);
    }
    var t2 := t1.(durable := Seen(t1), cache := map[], phase := Flushed(t1.phase.pack, t1.phase.cur, im));
    assert Flush(t1, t2);
    var next := OtherPack(s.pack);
    var t3 := t2.(durable := t2.durable[Pack(next, im.ckpt.total - 1) := CkptBlock(im.ckpt)],
                  cache := t2.cache - {Pack(next, im.ckpt.total - 1)},
                  phase := Idle(next, im.ckpt), pack := next, committed := im);
    assert Commit(t2, t3);
    SmoothInv(g, writes, |writes| - 1);
    InvFlush(g, t1, t2);
    Lands(g, t2, t3);
    SmoothThen(g, writes, [t1, t2, t3]);
    path := writes + [t1, t2, t3][1..];
  }

  /** After a commit the disk mounts as the image that was in progress. */
  lemma Lands(g: Geometry, s: State, s': State)
    requires Inv(g, s) && Commit(s, s')
    ensures s'.phase == Idle(OtherPack(s.pack), s.phase.image.ckpt)
    ensures Mount(g, s'.durable) == Some(View(OtherPack(s.pack), s.phase.image))
  {
    CommitStores(g, s, s');
    CommitAges(g, s, s');
    MountsStored(g, s'.durable, OtherPack(s.pack), s.phase.image);
  }

  lemma {:induction false} SmoothInv(g: Geometry, path: seq<State>, i: nat)
    requires SmoothRun(g, path) && i < |path| && Inv(g, path[0])
    ensures Inv(g, path[i])
  {
    if i > 0 {
      SmoothInv(g, path, i - 1);
      assert Smooth(g, path[i - 1], path[i - 1 + 1]);
      InvNext(g, path[i - 1], path[i]);
    }
  }

  /**
    A checkpoint can always be taken: from every idle state of every run, and for
    every next image that keeps what it does not flip, there is a run of smooth
    steps after which the disk mounts as that image, from the other pack.
  */
  lemma SyncSucceeds(g: Geometry, run: seq<State>, i: nat, im: Image) returns (path: seq<State>)
    requires Run(g, run) && i < |run| && run[i].phase.Idle?
    requires WellFormed(g, run[i].committed) && NextImage(g, run[i], im)
    ensures SmoothRun(g, path) && path[0] == run[i]
    ensures var t := path[|path| - 1];
            && t.phase == Idle(OtherPack(run[i].pack), im.ckpt)
            && Mount(g, t.durable) == Some(View(OtherPack(run[i].pack), im))
  {
    RunInv(g, run, i);
    var s := run[i];
    SeenStored(g, s);
    var s' := s.(phase := Writing(s.phase.pack, s.phase.cur, im, {}));
    forall k | 0 <= k < g.shadows && im.ckpt.bitmap[k] == s.phase.cur.bitmap[k]
      ensures Data(im.meta[k]) == At(Seen(s), Shadow(k, im.ckpt.bitmap[k]))
    {
      assert At(Seen(s), Shadow(k, s.committed.ckpt.bitmap[k])) ==
             Contents(s.committed, Shadow(k, s.committed.ckpt.bitmap[k]));
    }
    assert Begin(g, s, s', im);
    InvBegin(g, s, s', im);
    var rest := Completes(g, s');
    SmoothThen(g, [s, s'], rest);
    path := [s, s'] + rest[1..];
  }

  /** From every state of every run the volume can be taken down and mounted, idle at the committed checkpoint. */
  lemma CanResume(g: Geometry, run: seq<State>, i: nat) returns (down: State, up: State)
    requires Run(g, run) && i < |run|
    ensures Unmount(run[i], down) && DoMount(g, down, up)
    ensures up.phase == Idle(run[i].pack, run[i].committed.ckpt) && up.durable == run[i].durable
  {
    RunInv(g, run, i);
    down := run[i].(phase := Down);
    InvQuiet(g, run[i], down);
    var m := Mount(g, Seen(down));
    up := if m.Some? then down.(phase := Idle(m.value.pack, m.value.ckpt)) else down;
    InvMount(g, down, up);
  }
}
