/**
  The node tree of a file: which node offset is a direct node (node.h), where
  the blocks of a direct node start in the file (gc.c), where a block is found
  in the tree (node.c) and how many blocks there are (data.c).
*/
module NodeTree {

  import Arith

  /**
    NIDS_PER_BLOCK, addresses in the inode, addresses in a direct node; the inode
    keeps the ids of its five nodes at places top + 1 to top + 5.
  */
  datatype Shape = Shape(nids: nat, inInode: nat, inBlock: nat, top: nat)

  predicate Sane(s: Shape) { s.nids > 0 && s.inBlock > 0 }

  /** IS_DNODE, apart from the offset kept for the xattr node. */
  predicate IsDnode(s: Shape, ofs: nat) {
    var n := s.nids;
    && ofs != 3 && ofs != 4 + n && ofs != 5 + 2 * n
    && (ofs >= 6 + 2 * n ==> (ofs - (6 + 2 * n)) % (n + 1) != 0)
  }

  /** The offset of the last direct node. */
  function LastOfs(s: Shape): nat
    requires Sane(s)
  {
    7 + 2 * s.nids + (s.nids - 1) * (s.nids + 1) + s.nids - 1
  }

  function Addrs(s: Shape, ofs: nat): nat { if ofs == 0 then s.inInode else s.inBlock }

  /** f2fs_start_bidx_of_node. */
  function StartBidx(s: Shape, ofs: nat): nat
    requires Sane(s) && IsDnode(s, ofs)
  {
    if ofs == 0 then 0 else LeafNo(s, ofs) * s.inBlock + s.inInode
  }

  /** The direct nodes before this one, the inode not counted: `bidx` in the source. */
  function LeafNo(s: Shape, ofs: nat): nat
    requires Sane(s) && IsDnode(s, ofs) && ofs > 0
  {
    var n := s.nids;
    if ofs <= 2 then ofs - 1
    else if ofs <= 2 * n + 4 then
      assert (ofs - 4) / (n + 1) <= ofs - 4 by { Arith.DivBound(ofs - 4, n + 1); }
      ofs - 2 - (ofs - 4) / (n + 1)
    else
      assert (ofs - (2 * n + 4) - 3) / (n + 1) <= ofs - (2 * n + 4) - 3 by {
         Arith.DivBound(ofs - (2 * n + 4) - 3, n + 1); }
      ofs - 5 - (ofs - (2 * n + 4) - 3) / (n + 1)
  }

  /** The offset of direct node `k`, counting from 0 and without the inode: read off the layout in node.h. */
  function LeafOfs(s: Shape, k: nat): nat
    requires Sane(s)
  {
    var n := s.nids;
    if k < 2 then k + 1
    else if k < 2 + n then 4 + (k - 2)
    else if k < 2 + 2 * n then 5 + n + (k - 2 - n)
    else
      var m := k - 2 - 2 * n;
      7 + 2 * n + m / n * (n + 1) + m % n
  }

  function Leaves(s: Shape): nat { 2 + 2 * s.nids + s.nids * s.nids }

  /** max_inode_blocks. */
  function MaxBlocks(s: Shape): nat {
    s.inInode + 2 * s.inBlock + 2 * (s.inBlock * s.nids) + s.inBlock * s.nids * s.nids
  }

  // -------------------------------------------------------- leaves and offsets agree

  /** Direct node `y` under indirect node `x` of the double indirect node. */
  function DeepOfs(s: Shape, x: nat, y: nat): nat {
    Arith.NonNeg(x, s.nids + 1);
    7 + 2 * s.nids + x * (s.nids + 1) + y
  }

  function DeepLeaf(s: Shape, x: nat, y: nat): nat {
    Arith.NonNeg(x, s.nids);
    2 + 2 * s.nids + x * s.nids + y
  }

  lemma Deep(s: Shape, x: nat, y: nat)
    requires Sane(s) && y < s.nids
    ensures IsDnode(s, DeepOfs(s, x, y)) && LeafNo(s, DeepOfs(s, x, y)) == DeepLeaf(s, x, y)
    ensures LeafOfs(s, DeepLeaf(s, x, y)) == DeepOfs(s, x, y)
  {
    DeepNo(s, x, y);
    Arith.DivMod(x, s.nids, y);
  }

  lemma DeepNo(s: Shape, x: nat, y: nat)
    requires Sane(s) && y < s.nids
    ensures IsDnode(s, DeepOfs(s, x, y)) && LeafNo(s, DeepOfs(s, x, y)) == DeepLeaf(s, x, y)
  {
    var n := s.nids;
    Arith.NonNeg(x, n);
    assert x * (n + 1) == x * n + x by { Arith.Distribute(n, 1, x); }
    Arith.DivMod(x, n + 1, y + 1);
    Arith.DivMod(x, n + 1, y);
  }

  lemma DnodeOfLeaf(s: Shape, k: nat)
    requires Sane(s)
    ensures LeafOfs(s, k) > 0 && IsDnode(s, LeafOfs(s, k)) && LeafNo(s, LeafOfs(s, k)) == k
  {
    var n := s.nids;
    if k < 2 {
    } else if k < 2 + n {
      Arith.DivMod(0, n + 1, k - 2);
    } else if k < 2 + 2 * n {
      Arith.DivMod(1, n + 1, k - 2 - n);
    } else {
      hide LeafOfs, LeafNo, IsDnode, DeepOfs;
      DeepIs(s, k);
    }
  }

  lemma DeepIs(s: Shape, k: nat)
    requires Sane(s) && k >= 2 + 2 * s.nids
    ensures LeafOfs(s, k) > 0 && IsDnode(s, LeafOfs(s, k)) && LeafNo(s, LeafOfs(s, k)) == k
  {
    hide LeafOfs, LeafNo, IsDnode;
    var m := k - 2 - 2 * s.nids;
    assert k == DeepLeaf(s, m / s.nids, m % s.nids);
    Deep(s, m / s.nids, m % s.nids);
  }

  lemma LeafOfDnode(s: Shape, ofs: nat)
    requires Sane(s) && IsDnode(s, ofs) && ofs > 0
    ensures LeafOfs(s, LeafNo(s, ofs)) == ofs
  {
    var n := s.nids;
    if ofs <= 2 {
    } else if ofs < 4 + n {
      Arith.DivMod(0, n + 1, ofs - 4);
    } else if ofs <= 2 * n + 4 {
      Arith.DivMod(1, n + 1, ofs - 5 - n);
    } else {
      DeepWas(s, ofs);
    }
  }

  lemma DeepWas(s: Shape, ofs: nat)
    requires Sane(s) && IsDnode(s, ofs) && ofs > 2 * s.nids + 4
    ensures LeafOfs(s, LeafNo(s, ofs)) == ofs
  {
    var r := ofs - (6 + 2 * s.nids);
    var x, y := r / (s.nids + 1), r % (s.nids + 1);
    hide LeafOfs, LeafNo, IsDnode;
    assert ofs == DeepOfs(s, x, y - 1);
    Deep(s, x, y - 1);
  }

  // ------------------------------------------------------------------- get_node_path

  /** The offset taken at each node on the way, and the node offsets of those nodes. */
  datatype Path = Path(level: nat, offset: seq<nat>, noffset: seq<nat>) | TooBig

  function GetNodePath(s: Shape, block: nat): Path
    requires Sane(s)
  {
    if block < s.inInode then Path(0, [block], [0]) else DirectPath(s, block - s.inInode)
  }

  function DirectPath(s: Shape, b: nat): Path
    requires Sane(s)
  {
    if b < s.inBlock then Path(1, [s.top + 1, b], [0, 1])
    else if b - s.inBlock < s.inBlock then Path(1, [s.top + 2, b - s.inBlock], [0, 2])
    else IndirectPath(s, b - 2 * s.inBlock)
  }

  function IndirectPath(s: Shape, b: nat): Path
    requires Sane(s)
  {
    var n, indirect := s.nids, s.inBlock * s.nids;
    if b < indirect then UnderIndirect(s, s.top + 3, 3, b)
    else if b - indirect < indirect then UnderIndirect(s, s.top + 4, 4 + n, b - indirect)
    else DoubleIndirectPath(s, b - 2 * indirect)
  }

  /** Below an indirect node: its place in the inode, its node offset. */
  function UnderIndirect(s: Shape, place: nat, ofs: nat, b: nat): Path
    requires Sane(s)
  {
    Path(2, [place, b / s.inBlock, b % s.inBlock], [0, ofs, ofs + 1 + b / s.inBlock])
  }

  /** Blocks below an indirect node, and below the double indirect node. */
  function Indirect(s: Shape): (r: nat)
    requires Sane(s)
    ensures r > 0
  {
    Arith.Times(s.inBlock, s.nids);
    s.inBlock * s.nids
  }

  function DoubleIndirect(s: Shape): nat
    requires Sane(s)
  {
    Arith.NonNeg(Indirect(s), s.nids);
    Indirect(s) * s.nids
  }

  /** Address `z` of direct node `y` under indirect node `x` of the double indirect node. */
  function DeepTo(s: Shape, x: nat, y: nat, z: nat): Path {
    Arith.NonNeg(x, s.nids + 1);
    Path(3, [s.top + 5, x, y, z], [0, 5 + 2 * s.nids, 6 + 2 * s.nids + x * (s.nids + 1), DeepOfs(s, x, y)])
  }

  function DoubleIndirectPath(s: Shape, b: nat): Path
    requires Sane(s)
  {
    Arith.Division(b, Indirect(s));
    Arith.Division(b, s.inBlock);
    Arith.Division(b / s.inBlock, s.nids);
    if b < DoubleIndirect(s) then DeepTo(s, b / Indirect(s), b / s.inBlock % s.nids, b % s.inBlock) else TooBig
  }

  /** The direct node and the address in it that a path ends at. */
  function Dnode(p: Path): nat
    requires p.Path? && |p.noffset| > 0
  {
    p.noffset[|p.noffset| - 1]
  }

  function Slot(p: Path): nat
    requires p.Path? && |p.offset| > 0
  {
    p.offset[|p.offset| - 1]
  }

  /** A path ends at leaf `k`, address `z`. */
  ghost predicate At(s: Shape, p: Path, k: nat, z: nat)
    requires Sane(s)
  {
    && p.Path? && 0 < p.level < 4 && |p.offset| == |p.noffset| == p.level + 1
    && Dnode(p) == LeafOfs(s, k) && Slot(p) == z
    && p.noffset[0] == 0
    && forall i :: 1 <= i < p.level ==> !IsDnode(s, p.noffset[i]) && p.noffset[i] < p.noffset[i + 1]
  }

  /** Address `z` of leaf `k`, counted from the end of the inode's own. */
  function BlockAt(s: Shape, k: nat, z: nat): nat { k * s.inBlock + z }

  lemma PathShallow(s: Shape, k: nat, z: nat)
    requires Sane(s) && z < s.inBlock && k < 2
    ensures At(s, DirectPath(s, BlockAt(s, k, z)), k, z)
  {
  }

  /** Past the two direct nodes. */
  lemma PastDirect(s: Shape, j: nat, z: nat)
    requires Sane(s)
    ensures DirectPath(s, BlockAt(s, 2 + j, z)) == IndirectPath(s, BlockAt(s, j, z))
  {
    Arith.Distribute(2, j, s.inBlock);
    hide IndirectPath;
  }

  lemma PathIndirect1(s: Shape, j: nat, z: nat)
    requires Sane(s) && z < s.inBlock && j < s.nids
    ensures At(s, IndirectPath(s, BlockAt(s, j, z)), 2 + j, z)
  {
    hide UnderIndirect, DoubleIndirectPath, At;
    UnderAt(s, s.top + 3, 3, j, z);
    Arith.Multiples(j, s.nids, s.inBlock);
  }

  lemma PathIndirect2(s: Shape, j: nat, z: nat)
    requires Sane(s) && z < s.inBlock && j < s.nids
    ensures At(s, IndirectPath(s, BlockAt(s, s.nids + j, z)), 2 + s.nids + j, z)
  {
    hide UnderIndirect, DoubleIndirectPath, At, BlockAt;
    UnderAt(s, s.top + 4, 4 + s.nids, j, z);
    SecondHalf(s, j, z);
    Second(s, BlockAt(s, s.nids + j, z), BlockAt(s, j, z));
  }

  lemma Second(s: Shape, b: nat, c: nat)
    requires Sane(s) && b == s.inBlock * s.nids + c && c < s.inBlock * s.nids
    ensures IndirectPath(s, b) == UnderIndirect(s, s.top + 4, 4 + s.nids, c)
  {
    hide UnderIndirect, DoubleIndirectPath;
  }

  lemma SecondHalf(s: Shape, j: nat, z: nat)
    requires Sane(s) && z < s.inBlock && j < s.nids
    ensures BlockAt(s, s.nids + j, z) == s.inBlock * s.nids + BlockAt(s, j, z)
    ensures BlockAt(s, j, z) < s.inBlock * s.nids
  {
    Arith.Distribute(s.nids, j, s.inBlock);
    Arith.Multiples(j, s.nids, s.inBlock);
  }

  lemma UnderAt(s: Shape, place: nat, ofs: nat, j: nat, z: nat)
    requires Sane(s) && z < s.inBlock && j < s.nids && (ofs == 3 || ofs == 4 + s.nids)
    ensures At(s, UnderIndirect(s, place, ofs, BlockAt(s, j, z)), if ofs == 3 then 2 + j else 2 + s.nids + j, z)
  {
    Arith.DivMod(j, s.inBlock, z);
  }

  /** Past the two indirect nodes. */
  lemma PastIndirect(s: Shape, m: nat, z: nat)
    requires Sane(s)
    ensures IndirectPath(s, BlockAt(s, 2 * s.nids + m, z)) == DoubleIndirectPath(s, BlockAt(s, m, z))
  {
    hide DoubleIndirectPath, UnderIndirect;
    Arith.Distribute(2 * s.nids, m, s.inBlock);
    Arith.Distribute(s.nids, s.nids, s.inBlock);
  }

  lemma PathDeep(s: Shape, x: nat, y: nat, z: nat)
    requires Sane(s) && x < s.nids && y < s.nids && z < s.inBlock
    ensures At(s, DoubleIndirectPath(s, BlockAt(s, x * s.nids + y, z)), DeepLeaf(s, x, y), z)
  {
    hide DoubleIndirectPath, LeafOfs, LeafNo, IsDnode, DeepLeaf;
    DeepPath(s, x, y, z);
    DeepParent(s, x);
    Deep(s, x, y);
  }

  lemma DeepPath(s: Shape, x: nat, y: nat, z: nat)
    requires Sane(s) && x < s.nids && y < s.nids && z < s.inBlock
    ensures DoubleIndirectPath(s, BlockAt(s, x * s.nids + y, z)) == DeepTo(s, x, y, z)
  {
    hide DeepTo;
    DeepDivisions(s.nids, s.inBlock, x, y, z);
  }

  lemma DeepParent(s: Shape, x: nat)
    ensures !IsDnode(s, 6 + 2 * s.nids + x * (s.nids + 1)) && !IsDnode(s, 5 + 2 * s.nids)
  {
    Arith.DivMod(x, s.nids + 1, 0);
  }

  /** Splitting a block number below the double indirect node. */
  lemma DeepDivisions(n: nat, a: nat, x: nat, y: nat, z: nat)
    requires x < n && y < n && z < a
    ensures var b := (x * n + y) * a + z;
            b / a == x * n + y && b % a == z && b / a % n == y && a * n > 0 && b / (a * n) == x && b < a * n * n
  {
    var b := (x * n + y) * a + z;
    Arith.DivMod(x * n + y, a, z);
    Arith.DivMod(x, n, y);
    Arith.Multiples(y, n, a);
    assert n * a == a * n;
    var rest := y * a + z;
    assert (x * n + y) * a == x * (a * n) + y * a;
    Arith.DivMod(x, a * n, rest);
    Arith.Multiples(x, n, a * n);
    assert n * (a * n) == a * n * n;
  }

  /** Address `z` of leaf `k` is reached by its block number. */
  lemma PathOfLeaf(s: Shape, k: nat, z: nat)
    requires Sane(s) && z < s.inBlock && k < Leaves(s)
    ensures At(s, GetNodePath(s, s.inInode + BlockAt(s, k, z)), k, z)
  {
    hide DirectPath, IndirectPath, DoubleIndirectPath, At, BlockAt;
    var n := s.nids;
    if k < 2 {
      PathShallow(s, k, z);
    } else {
      PastDirect(s, k - 2, z);
      if k < 2 + n {
        PathIndirect1(s, k - 2, z);
      } else if k < 2 + 2 * n {
        PathIndirect2(s, k - 2 - n, z);
      } else {
        var m := k - 2 - 2 * n;
        PastIndirect(s, m, z);
        SplitDeep(s, m);
        PathDeep(s, m / n, m % n, z);
      }
    }
  }

  lemma SplitDeep(s: Shape, m: nat)
    requires Sane(s) && m < s.nids * s.nids
    ensures m / s.nids < s.nids && m % s.nids < s.nids && m == m / s.nids * s.nids + m % s.nids
    ensures DeepLeaf(s, m / s.nids, m % s.nids) == 2 + 2 * s.nids + m
  {
    assert m / s.nids * s.nids <= m;
    Arith.Quotient(m / s.nids, s.nids, s.nids, m);
  }

  // -------------------------------------------------------------------- the tiling

  lemma Total(s: Shape)
    ensures MaxBlocks(s) == s.inInode + Leaves(s) * s.inBlock
  {
    var n, a := s.nids, s.inBlock;
    assert (2 + 2 * n + n * n) * a == 2 * a + 2 * (a * n) + a * n * n;
  }

  /** Every block of the file is found in a direct node, where the node's start says; no other block is found. */
  lemma PathFound(s: Shape, block: nat)
    requires Sane(s)
    ensures GetNodePath(s, block).Path? <==> block < MaxBlocks(s)
    ensures var p := GetNodePath(s, block);
            p.Path? ==> |p.noffset| == |p.offset| == p.level + 1 <= 4 && IsDnode(s, Dnode(p)) &&
                        Slot(p) < Addrs(s, Dnode(p)) && StartBidx(s, Dnode(p)) + Slot(p) == block
  {
    hide LeafOfs, LeafNo, IsDnode, DirectPath, Leaves;
    Total(s);
    if block < s.inInode {
      assert IsDnode(s, 0) by { InodeIsDnode(s); }
    } else {
      var b := block - s.inInode;
      var k, z := b / s.inBlock, b % s.inBlock;
      assert b == k * s.inBlock + z;
      if block < MaxBlocks(s) {
        Arith.Quotient(k, Leaves(s), s.inBlock, b);
        PathOfLeaf(s, k, z);
        DnodeOfLeaf(s, k);
      } else {
        PathTooBig(s, b);
      }
    }
  }

  lemma InodeIsDnode(s: Shape)
    ensures IsDnode(s, 0)
  {
  }

  lemma PathTooBig(s: Shape, b: nat)
    requires Sane(s) && b >= Leaves(s) * s.inBlock
    ensures DirectPath(s, b) == TooBig
  {
    Total(s);
    hide UnderIndirect;
  }

  /** And conversely: each address of each direct node is found again. */
  lemma PathBack(s: Shape, ofs: nat, slot: nat)
    requires Sane(s) && IsDnode(s, ofs) && ofs <= LastOfs(s) && slot < Addrs(s, ofs)
    ensures StartBidx(s, ofs) + slot < MaxBlocks(s)
    ensures var p := GetNodePath(s, StartBidx(s, ofs) + slot);
            p.Path? && |p.noffset| == |p.offset| == p.level + 1 && Dnode(p) == ofs && Slot(p) == slot
  {
    hide LeafOfs, LeafNo, IsDnode, LastOfs, DirectPath, Leaves;
    Total(s);
    if ofs == 0 {
    } else {
      LeafOfDnode(s, ofs);
      var k := LeafNo(s, ofs);
      LastLeaf(s, ofs);
      PathOfLeaf(s, k, slot);
      Arith.Multiples(k, Leaves(s), s.inBlock);
    }
  }

  /** Offsets grow with the leaves. */
  lemma LeafStep(s: Shape, k: nat)
    requires Sane(s)
    ensures LeafOfs(s, k) < LeafOfs(s, k + 1)
  {
    var n := s.nids;
    if k + 1 < 2 + 2 * n {
    } else if k < 2 + 2 * n {
      Arith.DivMod(0, n, 0);
    } else {
      var m := k - 2 - 2 * n;
      DeepStep(n, m);
    }
  }

  lemma DeepStep(n: nat, m: nat)
    requires n > 0
    ensures m / n * (n + 1) + m % n < (m + 1) / n * (n + 1) + (m + 1) % n
  {
    var x, y := m / n, m % n;
    assert m == x * n + y;
    if y + 1 < n {
      Arith.DivMod(x, n, y + 1);
    } else {
      Arith.Grid(x, x + 1, n);
      Arith.DivMod(x + 1, n, 0);
      Arith.Grid(x, x + 1, n + 1);
    }
  }

  lemma {:induction false} LeavesGrow(s: Shape, k: nat, l: nat)
    requires Sane(s) && k < l
    ensures LeafOfs(s, k) < LeafOfs(s, l)
    decreases l - k
  {
    hide LeafOfs;
    LeafStep(s, k);
    if k + 1 < l { LeavesGrow(s, k + 1, l); }
  }

  lemma LastIsLeaf(s: Shape)
    requires Sane(s)
    ensures LeafOfs(s, Leaves(s) - 1) == LastOfs(s)
  {
    var n := s.nids;
    assert n * n - 1 == (n - 1) * n + (n - 1);
    Arith.DivMod(n - 1, n, n - 1);
  }

  lemma LastLeaf(s: Shape, ofs: nat)
    requires Sane(s) && IsDnode(s, ofs) && 0 < ofs <= LastOfs(s)
    ensures LeafNo(s, ofs) < Leaves(s)
  {
    hide LeafOfs, LeafNo, IsDnode, LastOfs;
    LeafOfDnode(s, ofs);
    LastIsLeaf(s);
    if LeafNo(s, ofs) >= Leaves(s) { LeavesGrow(s, Leaves(s) - 1, LeafNo(s, ofs)); }
  }

  lemma NosGrow(s: Shape, o: nat, o': nat)
    requires Sane(s) && IsDnode(s, o) && IsDnode(s, o') && 0 < o < o'
    ensures LeafNo(s, o) < LeafNo(s, o')
  {
    hide LeafOfs, LeafNo, IsDnode;
    LeafOfDnode(s, o);
    LeafOfDnode(s, o');
    if LeafNo(s, o') < LeafNo(s, o) { LeavesGrow(s, LeafNo(s, o'), LeafNo(s, o)); }
  }

  /** Direct nodes in order cover the file in order; neighbours leave no gap. */
  lemma Tiling(s: Shape, o: nat, o': nat)
    requires Sane(s) && IsDnode(s, o) && IsDnode(s, o') && o < o'
    ensures StartBidx(s, o) + Addrs(s, o) <= StartBidx(s, o')
    ensures (forall m :: o < m < o' ==> !IsDnode(s, m)) ==> StartBidx(s, o') == StartBidx(s, o) + Addrs(s, o)
  {
    hide LeafOfs, LeafNo, IsDnode;
    var l := LeafNo(s, o');
    var before: nat := if o == 0 then 0 else LeafNo(s, o) + 1;
    if o > 0 {
      NosGrow(s, o, o');
      Arith.Multiples(LeafNo(s, o), l, s.inBlock);
    }
    if before < l {
      // The leaf in between is a direct node in between.
      DnodeOfLeaf(s, before);
      LeafOfDnode(s, o');
      LeavesGrow(s, before, l);
      if o > 0 {
        LeafOfDnode(s, o);
        LeavesGrow(s, LeafNo(s, o), before);
      }
      assert o < LeafOfs(s, before) < o' && IsDnode(s, LeafOfs(s, before));
    } else {
      Arith.Grid(before, before + 1, s.inBlock);
      if o > 0 { Arith.Grid(LeafNo(s, o), before, s.inBlock); }
    }
  }

  /** The tiling starts at 0 and ends at max_inode_blocks. */
  lemma TilingEnds(s: Shape)
    requires Sane(s)
    ensures IsDnode(s, 0) && StartBidx(s, 0) == 0
    ensures IsDnode(s, LastOfs(s)) && StartBidx(s, LastOfs(s)) + s.inBlock == MaxBlocks(s)
  {
    InodeIsDnode(s);
    LastIsLeaf(s);
    DnodeOfLeaf(s, Leaves(s) - 1);
    Total(s);
    Arith.Grid(Leaves(s) - 1, Leaves(s), s.inBlock);
    hide LeafOfs, LeafNo, IsDnode, LastOfs;
  }
}
