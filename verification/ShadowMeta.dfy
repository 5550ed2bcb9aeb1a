/**
  Where the two copies of each NAT and SIT block live (node.h, segment.h), and
  the version bitmap that says which copy is current (f2fs.h).
*/
module ShadowMeta {

  import Arith
  import Checkpoint

  // ----------------------------------------------- the bit helpers of f2fs.h

  /** 1 << (7 - (nr & 7)): bit 0 is the most significant bit of byte 0. */
  function Mask(nr: nat): bv8 { 0x80 >> (nr % 8) }

  predicate TestBit(bytes: seq<bv8>, nr: nat)
    requires nr / 8 < |bytes|
  {
    bytes[nr / 8] & Mask(nr) != 0
  }

  /** Clear bytes test false, and a byte with its top bit alone tests true for the first of its bits alone. */
  lemma TestBitIs(bytes: seq<bv8>, nr: nat)
    requires nr / 8 < |bytes|
    ensures bytes[nr / 8] == 0 ==> !TestBit(bytes, nr)
    ensures bytes[nr / 8] == 0x80 ==> (TestBit(bytes, nr) <==> nr % 8 == 0)
  {
    MaskTable();
    assert Mask(nr) == Mask(nr % 8);
  }

  /** f2fs_change_bit, in place. */
  method ChangeBit(bytes: array<bv8>, nr: nat)
    requires nr / 8 < bytes.Length
    modifies bytes
    ensures forall m: nat :: m / 8 < bytes.Length ==>
              TestBit(bytes[..], m) == (if m == nr then !TestBit(old(bytes[..]), m) else TestBit(old(bytes[..]), m))
  {
    ghost var was := bytes[..];
    bytes[nr / 8] := bytes[nr / 8] ^ Mask(nr);
    forall m: nat | m / 8 < bytes.Length
      ensures TestBit(bytes[..], m) == (if m == nr then !TestBit(was, m) else TestBit(was, m))
    {
      if m / 8 == nr / 8 { FlipOne(was[nr / 8], nr % 8, m % 8); }
    }
  }

  lemma FlipOne(b: bv8, i: nat, j: nat)
    requires i < 8 && j < 8
    ensures ((b ^ Mask(i)) & Mask(j) != 0) == (if i == j then b & Mask(j) == 0 else b & Mask(j) != 0)
  {
    MaskTable();
  }

  lemma MaskTable()
    ensures Mask(0) == 0x80 && Mask(1) == 0x40 && Mask(2) == 0x20 && Mask(3) == 0x10
    ensures Mask(4) == 0x08 && Mask(5) == 0x04 && Mask(6) == 0x02 && Mask(7) == 0x01
  {
  }

  // ------------------------------------------------------------- addresses

  /** current_nat_addr: segments of the NAT come in pairs, one for each copy. */
  function NatAddr(base: nat, bps: nat, off: nat, bit: bool): (a: nat)
    requires bps > 0
    ensures a >= base
  {
    Arith.Division(off, bps);
    Arith.NonNeg(off / bps, bps);
    base + (2 * off - off % bps) + (if bit then bps else 0)
  }

  /** next_nat_addr: flip the segment bit of the address (bps is a power of two, so xor toggles that bit). */
  function NextNatAddr(base: nat, bps: nat, addr: nat): nat
    requires bps > 0 && addr >= base
  {
    Arith.DivOne(addr - base, bps);
    Toggled(bps, addr - base, (addr - base) / bps) + base
  }

  /** `x`, in segment `seg`, moved to the other segment of its pair. */
  function Toggled(bps: nat, x: nat, seg: nat): nat
    requires seg >= 1 ==> x >= bps
  {
    if seg % 2 == 0 then x + bps else x - bps
  }

  /** In units of segments, block `off` lives in segment 2 * (off / bps) + bit, at offset off % bps. */
  lemma NatSegments(base: nat, bps: nat, off: nat, bit: bool)
    requires bps > 0
    ensures var x := NatAddr(base, bps, off, bit) - base;
            x / bps == 2 * (off / bps) + (if bit then 1 else 0) && x % bps == off % bps
  {
    var q, r, b := off / bps, off % bps, if bit then 1 else 0;
    Arith.Division(off, bps);
    Arith.Sum(q, q, bps);
    Arith.Sum(2 * q, b, bps);
    Arith.DivMod(2 * q + b, bps, r);
  }

  /** The address written next is the address that becomes current when the bit is flipped. */
  lemma NatNextIsFlipped(base: nat, bps: nat, off: nat, bit: bool)
    requires bps > 0
    ensures NextNatAddr(base, bps, NatAddr(base, bps, off, bit)) == NatAddr(base, bps, off, !bit)
  {
    NatSegments(base, bps, off, bit);
    Arith.DivNat(off, bps);
  }

  lemma NatDistinct(base: nat, bps: nat, o1: nat, b1: bool, o2: nat, b2: bool)
    requires bps > 0 && NatAddr(base, bps, o1, b1) == NatAddr(base, bps, o2, b2)
    ensures o1 == o2 && b1 == b2
  {
    NatSegments(base, bps, o1, b1);
    NatSegments(base, bps, o2, b2);
    Arith.Division(o1, bps);
    Arith.Division(o2, bps);
  }

  /** current_sit_addr: the second copies follow all the first ones. */
  function SitAddr(base: nat, sitBlocks: nat, off: nat, bit: bool): nat {
    base + off + (if bit then sitBlocks else 0)
  }

  function NextSitAddr(base: nat, sitBlocks: nat, addr: nat): nat
    requires addr >= base
  {
    var x := addr - base;
    (if x < sitBlocks then x + sitBlocks else x - sitBlocks) + base
  }

  lemma SitDistinct(base: nat, sitBlocks: nat, o1: nat, b1: bool, o2: nat, b2: bool)
    requires o1 < sitBlocks && o2 < sitBlocks && SitAddr(base, sitBlocks, o1, b1) == SitAddr(base, sitBlocks, o2, b2)
    ensures o1 == o2 && b1 == b2
  {
  }

  lemma SitNextIsFlipped(base: nat, sitBlocks: nat, off: nat, bit: bool)
    requires off < sitBlocks
    ensures NextSitAddr(base, sitBlocks, SitAddr(base, sitBlocks, off, bit)) == SitAddr(base, sitBlocks, off, !bit)
  {
  }

  // ------------------------------------------------------- the whole layout

  /** The metadata areas of a volume, in order: two checkpoint segments, SIT, NAT. */
  datatype Layout = Layout(bps: nat, cp: nat, sit: nat, sitBlocks: nat, nat_: nat) {
    ghost predicate Valid() {
      bps > 0 && cp + 2 * bps <= sit && sit + 2 * sitBlocks <= nat_
    }

    /** The block number of an address; shadowed blocks count the SIT blocks first. */
    ghost function BlockNo(a: Checkpoint.Addr): nat
      requires bps > 0
    {
      match a
      case Pack(p, i) => cp + (if p == 2 then bps else 0) + i
      case Shadow(off, copy) =>
        if off < sitBlocks then SitAddr(sit, sitBlocks, off, copy) else NatAddr(nat_, bps, off - sitBlocks, copy)
    }

    ghost predicate InRange(a: Checkpoint.Addr) {
      a.Pack? ==> (a.pack == 1 || a.pack == 2) && a.index < bps
    }
  }

  /**
    No two metadata addresses share a block.  Writing the other copy of a NAT or
    SIT block therefore never overwrites a copy that the committed bitmap names,
    and neither pack overwrites the other.
  */
  lemma BlocksDistinct(l: Layout, a: Checkpoint.Addr, b: Checkpoint.Addr)
    requires l.Valid() && l.InRange(a) && l.InRange(b)
    ensures l.BlockNo(a) == l.BlockNo(b) <==> a == b
  {
    hide NatAddr;
    if l.BlockNo(a) == l.BlockNo(b) && a.Shadow? && b.Shadow? {
      if a.off >= l.sitBlocks && b.off >= l.sitBlocks {
        NatDistinct(l.nat_, l.bps, a.off - l.sitBlocks, a.copy, b.off - l.sitBlocks, b.copy);
      } else if a.off < l.sitBlocks && b.off < l.sitBlocks {
        SitDistinct(l.sit, l.sitBlocks, a.off, a.copy, b.off, b.copy);
      }
    }
  }
}
