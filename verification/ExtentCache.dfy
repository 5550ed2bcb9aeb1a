/**
  The per-inode extent cache of extent_cache.c: an ordered set of disjoint
  extents, a copy of the `largest` one, and the `cached_en` shortcut.

  The red-black tree is an ordered sequence, so a node pointer is an index and
  rb_prev/rb_next are its neighbours.  `file` is the plain map from file offset
  to block address that the cache may only ever repeat.
*/
module ExtentCache {

  import opened Options

  const MIN_EXTENT_LEN: nat := 64

  datatype Extent = Extent(fofs: nat, len: nat, blk: nat) {
    function End(): nat { fofs + len }
  }

  // ---------------------------------------------------------------- meaning

  /** Extent `e` says that file offset `o` lives in block `b`. */
  ghost predicate Maps(e: Extent, o: nat, b: nat) {
    e.fofs <= o < e.End() && b == e.blk + (o - e.fofs)
  }

  /** Some node of the tree says that `o` lives in `b`. */
  ghost predicate TreeMaps(s: seq<Extent>, o: nat, b: nat) {
    exists i :: 0 <= i < |s| && Maps(s[i], o, b)
  }

  /** The tree holds nonempty extents, in order, without overlap. */
  ghost predicate Ordered(s: seq<Extent>) {
    && (forall i :: 0 <= i < |s| ==> s[i].len >= 1)
    && (forall i, j :: 0 <= i < j < |s| ==> s[i].End() <= s[j].fofs)
  }

  /** No two nodes could be one: every run of blocks is held in one piece. */
  ghost predicate Separate(s: seq<Extent>) {
    forall x, y :: x in s && y in s ==> !Mergeable(x, y)
  }

  /** Everything `e` says is what the file map holds. */
  ghost predicate Repeats(e: Extent, file: imap<nat, nat>) {
    forall o, b :: Maps(e, o, b) ==> o in file && file[o] == b
  }

  /** The file map after [fofs, fofs+len) moved to blk.., or became a hole when blk is NULL_ADDR. */
  ghost function Overwrite(file: imap<nat, nat>, fofs: nat, blk: nat, len: nat): imap<nat, nat> {
    imap o: nat | if fofs <= o < fofs + len then blk != 0 else o in file
      :: if fofs <= o < fofs + len then blk + (o - fofs) else file[o]
  }

  lemma TreeMapsConcat(a: seq<Extent>, b: seq<Extent>, o: nat, blk: nat)
    ensures TreeMaps(a + b, o, blk) <==> TreeMaps(a, o, blk) || TreeMaps(b, o, blk)
  {
    if TreeMaps(a, o, blk) {
      var i :| 0 <= i < |a| && Maps(a[i], o, blk);
      assert (a + b)[i] == a[i];
    }
    if TreeMaps(b, o, blk) {
      var i :| 0 <= i < |b| && Maps(b[i], o, blk);
      assert (a + b)[|a| + i] == b[i];
    }
  }

  /** In an ordered tree an offset has at most one block. */
  lemma TreeMapsUnique(s: seq<Extent>, o: nat, b: nat, b': nat)
    requires Ordered(s) && TreeMaps(s, o, b) && TreeMaps(s, o, b')
    ensures b == b'
  {
    var i :| 0 <= i < |s| && Maps(s[i], o, b);
    var j :| 0 <= j < |s| && Maps(s[j], o, b');
    assert s[i].End() <= s[j].fofs || s[j].End() <= s[i].fofs || i == j;
  }

  // ------------------------------------------------- carving a range out

  /**
    The range [fofs, end) that an update invalidates.  `splitOk` says whether the
    node for the second piece of a split extent can be allocated.
  */
  datatype Cut = Cut(fofs: nat, end: nat, splitOk: bool) {
    ghost predicate Overlaps(e: Extent) { e.fofs < end && fofs < e.End() }

    ghost predicate KeepsHead(e: Extent) { fofs > e.fofs && fofs - e.fofs >= MIN_EXTENT_LEN }

    ghost predicate KeepsTail(e: Extent) {
      end < e.End() && e.End() - end >= MIN_EXTENT_LEN && (KeepsHead(e) ==> splitOk)
    }

    /** What extent `e` says about offset `o` survives: a leftover shorter than MIN_EXTENT_LEN does not. */
    ghost predicate Survives(e: Extent, o: nat) {
      || !Overlaps(e)
      || (o < fofs && KeepsHead(e))
      || (o >= end && KeepsTail(e))
    }

    /** The pieces of one extent that stay in the tree. */
    ghost function Pieces(e: Extent): seq<Extent> {
      if !Overlaps(e) then [e]
      else
        (if KeepsHead(e) then [Extent(e.fofs, fofs - e.fofs, e.blk)] else []) +
        (if KeepsTail(e) then [Extent(end, e.End() - end, e.blk + (end - e.fofs))] else [])
    }
  }

  /** What the first `n` nodes of the tree leave behind. */
  ghost function Carve(s: seq<Extent>, n: nat, c: Cut): seq<Extent>
    requires n <= |s|
  {
    if n == 0 then [] else Carve(s, n - 1, c) + c.Pieces(s[n - 1])
  }

  lemma PiecesMap(e: Extent, c: Cut, o: nat, b: nat)
    requires c.fofs < c.end && e.len >= 1
    ensures TreeMaps(c.Pieces(e), o, b) <==> Maps(e, o, b) && c.Survives(e, o)
  {
    var p := c.Pieces(e);
    if Maps(e, o, b) && c.Survives(e, o) {
      if !c.Overlaps(e) || o < c.fofs {
        assert Maps(p[0], o, b);
      } else {
        assert Maps(p[|p| - 1], o, b);
      }
    }
  }

  lemma ConcatOrdered(a: seq<Extent>, b: seq<Extent>, cut: nat)
    requires Ordered(a) && Ordered(b)
    requires forall i :: 0 <= i < |a| ==> a[i].End() <= cut
    requires forall i :: 0 <= i < |b| ==> cut <= b[i].fofs
    ensures Ordered(a + b)
  {
    var r := a + b;
    forall i, j | 0 <= i < j < |r|
      ensures r[i].End() <= r[j].fofs
    {
      if i < |a| <= j {
        assert r[i] == a[i] && r[j] == b[j - |a|];
      }
    }
  }

  lemma PiecesInside(e: Extent, c: Cut)
    requires c.fofs < c.end && e.len >= 1
    ensures Ordered(c.Pieces(e))
    ensures forall i :: 0 <= i < |c.Pieces(e)| ==>
              var x := c.Pieces(e)[i]; e.fofs <= x.fofs && x.End() <= e.End() && !c.Overlaps(x)
  {
  }

  lemma {:induction false} CarveOrdered(s: seq<Extent>, n: nat, c: Cut)
    requires c.fofs < c.end && Ordered(s) && n <= |s|
    ensures Ordered(Carve(s, n, c))
    ensures forall i :: 0 <= i < |Carve(s, n, c)| ==>
              var x := Carve(s, n, c)[i]; n > 0 && x.End() <= s[n - 1].End() && !c.Overlaps(x)
  {
    if n > 0 {
      CarveOrdered(s, n - 1, c);
      PiecesInside(s[n - 1], c);
      var a := Carve(s, n - 1, c);
      if n > 1 {
        assert s[n - 2].End() <= s[n - 1].fofs;
      }
      ConcatOrdered(a, c.Pieces(s[n - 1]), s[n - 1].fofs);
    }
  }

  /** Carving keeps exactly the offsets outside the range that do not sit in a short leftover. */
  lemma {:induction false} CarveMaps(s: seq<Extent>, n: nat, c: Cut, o: nat, b: nat)
    requires c.fofs < c.end && Ordered(s) && n <= |s|
    ensures TreeMaps(Carve(s, n, c), o, b) <==> exists i :: 0 <= i < n && Maps(s[i], o, b) && c.Survives(s[i], o)
  {
    if n > 0 {
      CarveMaps(s, n - 1, c, o, b);
      PiecesMap(s[n - 1], c, o, b);
      TreeMapsConcat(Carve(s, n - 1, c), c.Pieces(s[n - 1]), o, b);
    }
  }

  /** Nodes that do not meet the range stay as they are. */
  lemma {:induction false} CarveUntouched(s: seq<Extent>, m: nat, n: nat, c: Cut)
    requires m <= n <= |s|
    requires forall i :: m <= i < n ==> !c.Overlaps(s[i])
    ensures Carve(s, n, c) == Carve(s, m, c) + s[m..n]
  {
    if m < n {
      CarveUntouched(s, m, n - 1, c);
      assert s[m..n] == s[m..n - 1] + [s[n - 1]];
    }
  }

  lemma CarveLeft(s: seq<Extent>, k: nat, c: Cut)
    requires k <= |s| && forall i :: 0 <= i < k ==> s[i].End() <= c.fofs
    ensures Carve(s, k, c) == s[..k]
  {
    CarveUntouched(s, 0, k, c);
  }

  // ------------------------------------------------ merging or inserting

  predicate Mergeable(back: Extent, front: Extent) {
    back.End() == front.fofs && back.blk + back.len == front.blk
  }

  predicate BackMerges(s: seq<Extent>, k: nat, usePrev: bool, ei: Extent)
    requires k <= |s|
  {
    usePrev && k > 0 && Mergeable(s[k - 1], ei)
  }

  function WithBack(s: seq<Extent>, k: nat, usePrev: bool, ei: Extent): Extent
    requires k <= |s|
  {
    if BackMerges(s, k, usePrev, ei) then Extent(s[k - 1].fofs, s[k - 1].len + ei.len, s[k - 1].blk) else ei
  }

  predicate FrontMerges(s: seq<Extent>, k: nat, usePrev: bool, ei: Extent)
    requires k <= |s|
  {
    k < |s| && Mergeable(WithBack(s, k, usePrev, ei), s[k])
  }

  /** Extent `ei` together with the neighbours it continues. */
  ghost function Joined(s: seq<Extent>, k: nat, usePrev: bool, ei: Extent): Extent
    requires k <= |s|
  {
    var w := WithBack(s, k, usePrev, ei);
    if FrontMerges(s, k, usePrev, ei) then Extent(w.fofs, w.len + s[k].len, w.blk) else w
  }

  /** The tree after extent `ei` was merged into its neighbours or inserted between them. */
  ghost function Place(s: seq<Extent>, k: nat, usePrev: bool, ei: Extent, insertOk: bool): seq<Extent>
    requires k <= |s|
  {
    var left := if BackMerges(s, k, usePrev, ei) then s[..k - 1] else s[..k];
    var right := if FrontMerges(s, k, usePrev, ei) then s[k + 1..] else s[k..];
    if Placed(s, k, usePrev, ei, insertOk) then left + [Joined(s, k, usePrev, ei)] + right else s
  }

  ghost predicate Placed(s: seq<Extent>, k: nat, usePrev: bool, ei: Extent, insertOk: bool)
    requires k <= |s|
  {
    insertOk || BackMerges(s, k, usePrev, ei) || FrontMerges(s, k, usePrev, ei)
  }

  /** The gap at `k` has room for `ei`. */
  ghost predicate Fits(s: seq<Extent>, k: nat, ei: Extent) {
    && k <= |s| && ei.len >= 1
    && (forall i :: 0 <= i < k ==> s[i].End() <= ei.fofs)
    && (forall i :: k <= i < |s| ==> ei.End() <= s[i].fofs)
  }

  lemma ReplaceAt(s: seq<Extent>, a: nat, b: nat, mid: Extent, i: nat, j: nat)
    requires Ordered(s) && a <= b <= |s|
    requires a > 0 ==> s[a - 1].End() <= mid.fofs
    requires b < |s| ==> mid.End() <= s[b].fofs
    requires i < j < a + 1 + |s| - b
    ensures var r := s[..a] + [mid] + s[b..]; r[i].End() <= r[j].fofs
  {
    var i' := if i < a then i else i - a - 1 + b;
    var j' := if j < a then j else j - a - 1 + b;
    if j == a {
      assert i' == a - 1 || s[i'].End() <= s[a - 1].fofs;
    } else if i == a {
      assert j' == b || s[b].End() <= s[j'].fofs;
    } else {
      assert s[i'].End() <= s[j'].fofs;
    }
  }

  /** Replacing a run of nodes by one extent that keeps clear of both neighbours keeps the order. */
  lemma ReplaceOrdered(s: seq<Extent>, a: nat, b: nat, mid: Extent)
    requires Ordered(s) && a <= b <= |s| && mid.len >= 1
    requires a > 0 ==> s[a - 1].End() <= mid.fofs
    requires b < |s| ==> mid.End() <= s[b].fofs
    ensures Ordered(s[..a] + [mid] + s[b..])
  {
    var r := s[..a] + [mid] + s[b..];
    forall i, j | 0 <= i < j < |r|
      ensures r[i].End() <= r[j].fofs
    {
      ReplaceAt(s, a, b, mid, i, j);
    }
  }

  lemma PlaceOrdered(s: seq<Extent>, k: nat, usePrev: bool, ei: Extent, insertOk: bool)
    requires Ordered(s) && Fits(s, k, ei)
    ensures Ordered(Place(s, k, usePrev, ei, insertOk))
  {
    if Placed(s, k, usePrev, ei, insertOk) {
      var back, front := BackMerges(s, k, usePrev, ei), FrontMerges(s, k, usePrev, ei);
      var a := if back then k - 1 else k;
      var b := if front then k + 1 else k;
      var mid := Joined(s, k, usePrev, ei);
      ReplaceOrdered(s, a, b, mid);
      assert Place(s, k, usePrev, ei, insertOk) == s[..a] + [mid] + s[b..];
    }
  }

  lemma TreeMapsOne(e: Extent, o: nat, b: nat)
    ensures TreeMaps([e], o, b) <==> Maps(e, o, b)
  {
    if Maps(e, o, b) { assert Maps([e][0], o, b); }
  }

  lemma TreeMapsJoin(left: seq<Extent>, mid: seq<Extent>, right: seq<Extent>, o: nat, b: nat)
    ensures TreeMaps(left + mid + right, o, b) <==> TreeMaps(left, o, b) || TreeMaps(mid, o, b) || TreeMaps(right, o, b)
  {
    TreeMapsConcat(left + mid, right, o, b);
    TreeMapsConcat(left, mid, o, b);
  }

  lemma TreeMapsPair(x: Extent, y: Extent, o: nat, b: nat)
    ensures TreeMaps([x, y], o, b) <==> Maps(x, o, b) || Maps(y, o, b)
  {
    assert [x, y] == [x] + [y];
    TreeMapsConcat([x], [y], o, b);
    TreeMapsOne(x, o, b);
    TreeMapsOne(y, o, b);
  }

  /** Placing `ei` adds exactly what `ei` says, whichever of the four shapes is taken. */
  lemma PlaceMaps(s: seq<Extent>, k: nat, usePrev: bool, ei: Extent, insertOk: bool, o: nat, b: nat)
    requires Ordered(s) && Fits(s, k, ei)
    ensures TreeMaps(Place(s, k, usePrev, ei, insertOk), o, b)
       <==> TreeMaps(s, o, b) || (Placed(s, k, usePrev, ei, insertOk) && Maps(ei, o, b))
  {
    if Placed(s, k, usePrev, ei, insertOk) {
      var back, front := BackMerges(s, k, usePrev, ei), FrontMerges(s, k, usePrev, ei);
      var left := if back then s[..k - 1] else s[..k];
      var right := if front then s[k + 1..] else s[k..];
      var mid := Joined(s, k, usePrev, ei);
      assert Place(s, k, usePrev, ei, insertOk) == left + [mid] + right;
      TreeMapsJoin(left, [mid], right, o, b);
      TreeMapsOne(mid, o, b);
      PlacePieces(s, k, back, front, o, b);
    }
  }

  /** The nodes that a merge swallows, split off from the rest of the tree. */
  lemma PlacePieces(s: seq<Extent>, k: nat, back: bool, front: bool, o: nat, b: nat)
    requires k <= |s| && (back ==> k > 0) && (front ==> k < |s|)
    ensures TreeMaps(s, o, b)
       <==> || TreeMaps(if back then s[..k - 1] else s[..k], o, b)
            || TreeMaps(if front then s[k + 1..] else s[k..], o, b)
            || (back && Maps(s[k - 1], o, b)) || (front && Maps(s[k], o, b))
  {
    if back && front {
      assert s == s[..k - 1] + [s[k - 1], s[k]] + s[k + 1..];
      TreeMapsJoin(s[..k - 1], [s[k - 1], s[k]], s[k + 1..], o, b);
      TreeMapsPair(s[k - 1], s[k], o, b);
    } else if back {
      assert s == s[..k - 1] + [s[k - 1]] + s[k..];
      TreeMapsJoin(s[..k - 1], [s[k - 1]], s[k..], o, b);
      TreeMapsOne(s[k - 1], o, b);
    } else if front {
      assert s == s[..k] + [s[k]] + s[k + 1..];
      TreeMapsJoin(s[..k], [s[k]], s[k + 1..], o, b);
      TreeMapsOne(s[k], o, b);
    } else {
      assert s == s[..k] + s[k..];
      TreeMapsConcat(s[..k], s[k..], o, b);
    }
  }

  // ------------------------------------------------------ facts for Update

  /** What is left of a truthful extent is truthful about the overwritten file. */
  lemma PiecesRepeat(e: Extent, file: imap<nat, nat>, blk: nat, c: Cut)
    requires Repeats(e, file) && e.len >= 1 && c.fofs < c.end
    ensures forall x :: x in c.Pieces(e) ==> Repeats(x, Overwrite(file, c.fofs, blk, c.end - c.fofs))
  {
    forall x, o, b | x in c.Pieces(e) && Maps(x, o, b)
      ensures var f := Overwrite(file, c.fofs, blk, c.end - c.fofs); o in f && f[o] == b
    {
      assert Maps(e, o, b);
    }
  }

  lemma OutsideRepeats(e: Extent, file: imap<nat, nat>, fofs: nat, blk: nat, len: nat)
    requires Repeats(e, file) && (e.len == 0 || !(e.fofs < fofs + len && fofs < e.End()))
    ensures Repeats(e, Overwrite(file, fofs, blk, len))
  {
  }

  lemma InsideRepeats(file: imap<nat, nat>, fofs: nat, blk: nat, len: nat)
    requires blk != 0
    ensures Repeats(Extent(fofs, len, blk), Overwrite(file, fofs, blk, len))
  {
  }

  ghost predicate AllRepeat(s: seq<Extent>, file: imap<nat, nat>) {
    forall i :: 0 <= i < |s| ==> Repeats(s[i], file)
  }

  lemma EmptyRepeats(s: seq<Extent>, e: Extent, file: imap<nat, nat>)
    requires s == [] && e.len == 0
    ensures Ordered(s) && Separate(s) && AllRepeat(s, file) && Repeats(e, file)
  {
  }

  lemma SubtreeValid(s: seq<Extent>, i: nat, file: imap<nat, nat>)
    requires Ordered(s) && Separate(s) && AllRepeat(s, file) && i < |s|
    ensures var r := s[..i] + s[i + 1..]; Ordered(r) && Separate(r) && AllRepeat(r, file)
  {
    var r := s[..i] + s[i + 1..];
    assert forall j :: 0 <= j < |r| ==> r[j] == s[if j < i then j else j + 1];
  }

  lemma InTreeRepeats(s: seq<Extent>, e: Extent, file: imap<nat, nat>)
    requires AllRepeat(s, file)
    ensures e in s ==> Repeats(e, file)
  {
  }

  lemma AllRepeatIff(s: seq<Extent>, file: imap<nat, nat>)
    ensures AllRepeat(s, file) <==> forall o, b :: TreeMaps(s, o, b) ==> o in file && file[o] == b
  {
    if AllRepeat(s, file) {
      forall o, b | TreeMaps(s, o, b)
        ensures o in file && file[o] == b
      {
        var i :| 0 <= i < |s| && Maps(s[i], o, b);
        assert Repeats(s[i], file);
      }
    } else {
      var i :| 0 <= i < |s| && !Repeats(s[i], file);
      var o, b :| Maps(s[i], o, b) && !(o in file && file[o] == b);
      assert TreeMaps(s, o, b);
    }
  }

  lemma {:induction false} CarveRepeats(s: seq<Extent>, n: nat, file: imap<nat, nat>, blk: nat, c: Cut)
    requires AllRepeat(s, file) && Ordered(s) && n <= |s| && c.fofs < c.end
    ensures AllRepeat(Carve(s, n, c), Overwrite(file, c.fofs, blk, c.end - c.fofs))
  {
    if n > 0 {
      CarveRepeats(s, n - 1, file, blk, c);
      PiecesRepeat(s[n - 1], file, blk, c);
      var b := c.Pieces(s[n - 1]);
      assert forall i :: 0 <= i < |b| ==> b[i] in b;
    }
  }

  /** Once the next node starts at or after the end of the range, the whole tree is carved. */
  lemma RestUntouched(s: seq<Extent>, j: nat, c: Cut, cur: nat, now: seq<Extent>)
    requires Ordered(s) && c.fofs < c.end && j <= |s|
    requires now == Swept(s, j, c) && cur == NextIndex(s, j, c)
    requires cur < |now| ==> c.end <= now[cur].fofs
    ensures now == Carve(s, |s|, c)
    ensures forall i :: j <= i < |s| ==> !c.Overlaps(s[i])
  {
    var done := Carve(s, j, c);
    if j < |s| {
      assert c.end <= s[j].fofs by {
        if cur == |done| {
          assert now[cur] == s[j];
        } else {
          CarveOrdered(s, j, c);
          assert s[j - 1].End() <= s[j].fofs && done[cur] == now[cur];
        }
      }
    }
    CarveUntouched(s, j, |s|, c);
  }

  /** No node meets the range any more, so it falls between two of them. */
  lemma CutAt(s: seq<Extent>, cur: nat, c: Cut)
    requires Ordered(s) && c.fofs < c.end && cur <= |s|
    requires forall i :: 0 <= i < |s| ==> !c.Overlaps(s[i])
    requires cur < |s| ==> c.end <= s[cur].fofs
    requires cur > 0 ==> s[cur - 1].fofs < c.end
    ensures forall i :: 0 <= i < cur ==> s[i].End() <= c.fofs
    ensures forall i :: cur <= i < |s| ==> c.end <= s[i].fofs
  {
  }

  // ------------------------------------------------------------- the cache

  class ExtentTree {
    var nodes: seq<Extent>
    var cached: int            // index of cached_en, or -1
    var largest: Extent
    var largestUpdated: bool
    var noExtent: bool         // FI_NO_EXTENT
    ghost var file: imap<nat, nat>

    ghost predicate Valid()
      reads this
    {
      && Ordered(nodes) && Separate(nodes) && -1 <= cached < |nodes|
      && AllRepeat(nodes, file) && Repeats(largest, file)
      && (noExtent ==> nodes == [] && largest.len == 0)
    }

    constructor (ghost file: imap<nat, nat>)
      ensures Valid() && this.file == file && nodes == [] && largest.len == 0 && !noExtent
    {
      nodes, cached, largest := [], -1, Extent(0, 0, 0);
      largestUpdated, noExtent := false, false;
      this.file := file;
    }

    /** __f2fs_init_extent_tree: seed an empty tree with the extent stored in the inode. */
    method InitFromInode(ext: Extent)
      requires Valid() && !noExtent && Repeats(ext, file)
      modifies this
      ensures Valid() && file == old(file) && !noExtent
      ensures ext.len == 0 || old(nodes) != [] ==> nodes == old(nodes) && largest == old(largest)
      ensures ext.len != 0 && old(nodes) == [] ==> nodes == [ext] && largest == ext
    {
      if ext.len == 0 || nodes != [] { return; }
      nodes, cached, largest := [ext], 0, ext;
    }

    /** The descent of __lookup_rb_tree_slow: the first node that ends after `ofs`. */
    method Descend(ofs: nat) returns (k: nat)
      requires Ordered(nodes)
      ensures k <= |nodes|
      ensures forall i :: 0 <= i < k ==> nodes[i].End() <= ofs
      ensures forall i :: k <= i < |nodes| ==> ofs < nodes[i].End()
    {
      var lo, hi := 0, |nodes|;
      while lo < hi
        invariant 0 <= lo <= hi <= |nodes|
        invariant forall i :: 0 <= i < lo ==> nodes[i].End() <= ofs
        invariant forall i :: hi <= i < |nodes| ==> ofs < nodes[i].End()
      {
        var mid := (lo + hi) / 2;
        if nodes[mid].End() <= ofs { lo := mid + 1; } else { hi := mid; }
      }
      k := lo;
    }

    /** f2fs_lookup_extent_tree: `largest`, then `cached_en`, then the tree. */
    method Lookup(ofs: nat) returns (r: Option<Extent>)
      requires Valid()
      modifies this`cached
      ensures Valid()
      ensures r.Some? ==> r.value.fofs <= ofs < r.value.End()
      ensures r.Some? ==> ofs in file && file[ofs] == r.value.blk + (ofs - r.value.fofs)
      ensures r.None? ==> forall b :: !Maps(largest, ofs, b) && !TreeMaps(nodes, ofs, b)
      ensures noExtent ==> r.None?
      // A hit past `largest` leaves its node in cached_en.
      ensures r.Some? && !(largest.fofs <= ofs < largest.End()) ==> cached >= 0 && r.value == nodes[cached]
    {
      if largest.fofs <= ofs < largest.End() {
        assert Maps(largest, ofs, largest.blk + (ofs - largest.fofs));
        return Some(largest);
      }
      if cached >= 0 && nodes[cached].fofs <= ofs < nodes[cached].End() {
        assert Maps(nodes[cached], ofs, nodes[cached].blk + (ofs - nodes[cached].fofs));
        return Some(nodes[cached]);
      }
      var k := Descend(ofs);
      if k < |nodes| && nodes[k].fofs <= ofs {
        cached := k;
        assert Maps(nodes[k], ofs, nodes[k].blk + (ofs - nodes[k].fofs));
        return Some(nodes[k]);
      }
      if k < |nodes| {
        assert forall i :: k < i < |nodes| ==> nodes[k].End() <= nodes[i].fofs;
      }
      return None;
    }

    method InsertAt(i: nat, e: Extent)
      requires i <= |nodes| && -1 <= cached < |nodes|
      modifies this`nodes, this`cached
      ensures nodes == old(nodes)[..i] + [e] + old(nodes)[i..] && cached == i
    {
      nodes, cached := nodes[..i] + [e] + nodes[i..], i;
    }

    /** __release_extent_node / __detach_extent_node. */
    method RemoveAt(i: nat)
      requires i < |nodes| && -1 <= cached < |nodes|
      modifies this`nodes, this`cached
      ensures nodes == old(nodes)[..i] + old(nodes)[i + 1..] && -1 <= cached < |nodes|
      ensures old(cached) != i && old(cached) >= 0 ==> cached >= 0 && nodes[cached] == old(nodes)[old(cached)]
      ensures old(cached) == i ==> cached == -1
    {
      nodes := nodes[..i] + nodes[i + 1..];
      if cached == i { cached := -1; } else if cached > i { cached := cached - 1; }
    }

    /** __try_update_largest_extent. */
    method TryUpdateLargest(e: Extent)
      modifies this`largest, this`largestUpdated
      // It stays the longer of the two, a tie changing nothing, and tells the truth of every file both tell it of.
      ensures (largest == e || largest == old(largest)) && largest.len >= e.len && largest.len >= old(largest).len
      ensures largest != old(largest) ==> old(largest).len < e.len
      ensures Followed(old(largest), old(largestUpdated), largest, largestUpdated)
      ensures forall file :: Repeats(e, file) && Repeats(old(largest), file) ==> Repeats(largest, file)
    {
      if e.len > largest.len { largest, largestUpdated := e, true; }
    }

    /** f2fs_lookup_rb_tree_ret: where the range starts, and whether the node before it may be merged with. */
    method FirstInRange(fofs: nat) returns (k: nat, hasPrev: bool)
      requires Ordered(nodes) && -1 <= cached < |nodes|
      ensures k <= |nodes| && (hasPrev ==> k > 0) && (k > 0 ==> hasPrev || nodes[k - 1].End() < fofs)
      ensures forall i :: 0 <= i < k ==> nodes[i].End() <= fofs
      ensures forall i :: k <= i < |nodes| ==> fofs < nodes[i].End() && nodes[i].len >= 1
    {
      if cached >= 0 && nodes[cached].fofs <= fofs < nodes[cached].End() {
        k := cached;
        hasPrev := k > 0 && nodes[k].fofs == fofs;
        assert forall i :: k < i < |nodes| ==> nodes[k].End() <= nodes[i].fofs;
        return;
      }
      k := Descend(fofs);
      hasPrev := k > 0 && (k == |nodes| || fofs <= nodes[k].fofs);
    }

    /**
      One turn of the invalidation loop, on a node that meets the range.
      Answers the node to look at next and whether the one before it may be
      merged with.
    */
    method InvalidateOne(cur: nat, c: Cut, hasPrev: bool)
      returns (next: nat, hasPrev': bool)
      requires c.fofs < c.end && cur < |nodes| && -1 <= cached < |nodes|
      requires nodes[cur].len >= 1 && c.Overlaps(nodes[cur])
      modifies this`nodes, this`cached, this`largest, this`largestUpdated
      ensures -1 <= cached < |nodes|
      ensures var p := c.Pieces(old(nodes)[cur]);
              && nodes == old(nodes)[..cur] + p + old(nodes)[cur + 1..]
              && next == cur + (if |p| > 0 && p[|p| - 1].fofs >= c.end then |p| - 1 else |p|)
              && (largest == old(largest) || largest in p) && (forall x :: x in p ==> x.len <= largest.len)
              && (next > cur ==> nodes[next - 1].fofs < c.end)
      ensures Followed(old(largest), old(largestUpdated), largest, largestUpdated)
      // the node before the gap is the one to merge with whenever it reaches the gap
      ensures hasPrev ==> hasPrev'
      ensures next > cur ==> hasPrev' || nodes[next - 1].End() < c.fofs
    {
      var dei := nodes[cur];
      var orgEnd := dei.End();
      var parts, found := 0, false;
      next, hasPrev' := 0, hasPrev;

      if c.fofs > dei.fofs && c.fofs - dei.fofs >= MIN_EXTENT_LEN {
        nodes := nodes[cur := Extent(dei.fofs, c.fofs - dei.fofs, dei.blk)];
        hasPrev', parts := true, 1;
      }
      if c.end < orgEnd && orgEnd - c.end >= MIN_EXTENT_LEN {
        var tail := Extent(c.end, orgEnd - c.end, dei.blk + (c.end - dei.fofs));
        if parts == 1 {
          if c.splitOk {
            InsertAt(cur + 1, tail);
            TryUpdateLargest(tail);
            next, found := cur + 1, true;
          }
        } else {
          nodes := nodes[cur := tail];
          next, found := cur, true;
        }
        parts := parts + 1;
      }
      if !found { next := cur + 1; }
      if parts > 0 {
        TryUpdateLargest(nodes[cur]);
      } else {
        RemoveAt(cur);
        next := cur;
      }
    }

    /** Step 2 of f2fs_update_extent_tree_range: clear the range out of the tree. */
    method Invalidate(k: nat, prev: bool, c: Cut) returns (cur: nat, hasPrev: bool, ghost j: nat)
      requires c.fofs < c.end && k <= |nodes| && -1 <= cached < |nodes|
      requires Carve(nodes, k, c) == nodes[..k]
      requires k > 0 ==> nodes[k - 1].fofs < c.end && (prev || nodes[k - 1].End() < c.fofs)
      requires forall i :: 0 <= i < k ==> !c.Overlaps(nodes[i])
      requires forall i :: k <= i < |nodes| ==> c.fofs < nodes[i].End() && nodes[i].len >= 1
      modifies this`nodes, this`cached, this`largest, this`largestUpdated
      ensures -1 <= cached < |nodes| && k <= j <= |old(nodes)|
      ensures nodes == Swept(old(nodes), j, c) && cur == NextIndex(old(nodes), j, c)
      ensures cur <= |nodes| && (cur < |nodes| ==> c.end <= nodes[cur].fofs)
      ensures cur > 0 ==> nodes[cur - 1].fofs < c.end && (hasPrev || nodes[cur - 1].End() < c.fofs)
      ensures largest == old(largest) || IsLeftover(old(nodes), c, largest)
      ensures CoversLeftovers(old(nodes), j, c, largest)
      ensures Followed(old(largest), old(largestUpdated), largest, largestUpdated)
    {
      ghost var was := nodes;
      hide Swept, NextIndex, Carve;
      cur, hasPrev, j := k, prev, k;
      SweptStart(was, k, c);
      while cur < |nodes| && nodes[cur].fofs < c.end
        invariant cur <= |nodes| && -1 <= cached < |nodes| && k <= j <= |was|
        invariant nodes == Swept(was, j, c) && cur == NextIndex(was, j, c)
        invariant cur > 0 ==> nodes[cur - 1].fofs < c.end && (hasPrev || nodes[cur - 1].End() < c.fofs)
        invariant largest == old(largest) || IsLeftover(was, c, largest)
        invariant CoversLeftovers(was, j, c, largest)
        invariant Followed(old(largest), old(largestUpdated), largest, largestUpdated)
        decreases |was| - j
      {
        SweptAt(was, j, c, cur);
        cur, hasPrev, j := SweepNode(cur, hasPrev, c, was, j);
      }
    }

    /** One turn of the loop, in terms of the tree the loop started from. */
    method SweepNode(cur: nat, hasPrev: bool, c: Cut, ghost was: seq<Extent>, ghost j: nat)
      returns (cur': nat, hasPrev': bool, ghost j': nat)
      requires c.fofs < c.end && j < |was| && c.Overlaps(was[j]) && was[j].len >= 1
      requires nodes == Swept(was, j, c) && cur == |Carve(was, j, c)| && -1 <= cached < |nodes|
      requires cur < |nodes| && nodes[cur] == was[j]
      requires cur > 0 ==> nodes[cur - 1].fofs < c.end && (hasPrev || nodes[cur - 1].End() < c.fofs)
      requires CoversLeftovers(was, j, c, largest)
      modifies this`nodes, this`cached, this`largest, this`largestUpdated
      ensures -1 <= cached < |nodes| && j' == j + 1
      ensures nodes == Swept(was, j', c) && cur' == NextIndex(was, j', c) && cur' <= |nodes|
      ensures cur' > 0 ==> nodes[cur' - 1].fofs < c.end && (hasPrev' || nodes[cur' - 1].End() < c.fofs)
      ensures largest == old(largest) || IsLeftover(was, c, largest)
      ensures CoversLeftovers(was, j', c, largest)
      ensures Followed(old(largest), old(largestUpdated), largest, largestUpdated)
    {
      hide Swept, Carve, NextIndex, CoversLeftovers, IsLeftover, c.Pieces;
      cur', hasPrev' := InvalidateOne(cur, c, hasPrev);
      j' := j + 1;
      SweptStep(was, j, c, cur, cur', nodes);
      CoversStep(was, j, c, old(largest), largest);
      assert cur' == cur && cur > 0 ==> nodes[cur' - 1] == old(nodes)[cur - 1];
    }

    /** __try_merge_extent_node. */
    method TryMerge(k: nat, usePrev: bool, ei: Extent) returns (at: int)
      requires k <= |nodes| && -1 <= cached < |nodes|
      modifies this`nodes, this`cached
      ensures -1 <= at < |nodes| && -1 <= cached < |nodes|
      ensures at >= 0 <==> BackMerges(old(nodes), k, usePrev, ei) || FrontMerges(old(nodes), k, usePrev, ei)
      ensures nodes == Place(old(nodes), k, usePrev, ei, false)
      ensures at >= 0 ==> nodes[at] == Joined(old(nodes), k, usePrev, ei)
      ensures at < 0 ==> cached == old(cached)
    {
      var w := ei;
      at := -1;
      if usePrev && k > 0 && Mergeable(nodes[k - 1], ei) {
        w := Extent(nodes[k - 1].fofs, nodes[k - 1].len + ei.len, nodes[k - 1].blk);
        nodes := nodes[k - 1 := w];
        at := k - 1;
      }
      if k < |nodes| && Mergeable(w, nodes[k]) {
        nodes := nodes[k := Extent(w.fofs, w.len + nodes[k].len, w.blk)];
        if at >= 0 {
          RemoveAt(k - 1);
          at := k - 1;
        } else {
          at := k;
        }
      }
    }

    /** Step 3: __try_merge_extent_node, and __insert_extent_tree when nothing merges. */
    method MergeOrInsert(k: nat, usePrev: bool, ei: Extent, insertOk: bool)
      requires k <= |nodes| && -1 <= cached < |nodes|
      modifies this`nodes, this`cached, this`largest, this`largestUpdated
      ensures nodes == Place(old(nodes), k, usePrev, ei, insertOk) && -1 <= cached < |nodes|
      ensures Placed(old(nodes), k, usePrev, ei, insertOk) ==>
                cached >= 0 && nodes[cached] == Joined(old(nodes), k, usePrev, ei)
      // largest follows: it is the joined extent exactly when that one is longer
      ensures largest == if Placed(old(nodes), k, usePrev, ei, insertOk) &&
                            Joined(old(nodes), k, usePrev, ei).len > old(largest).len
                         then Joined(old(nodes), k, usePrev, ei) else old(largest)
      ensures Followed(old(largest), old(largestUpdated), largest, largestUpdated)
    {
      var at := TryMerge(k, usePrev, ei);
      if at >= 0 {
        TryUpdateLargest(nodes[at]);
        cached := at;
      } else if insertOk {
        InsertAt(k, ei);
        TryUpdateLargest(ei);
      }
    }

    /** f2fs_shrink_extent_tree: the LRU node, wherever it sits in this tree, is detached. */
    method Evict(i: nat)
      requires Valid() && i < |nodes|
      modifies this`nodes, this`cached
      ensures Valid() && nodes == old(nodes)[..i] + old(nodes)[i + 1..]
    {
      SubtreeValid(nodes, i, file);
      RemoveAt(i);
    }

    /** f2fs_drop_extent_tree. */
    method Drop()
      requires Valid()
      modifies this
      ensures Valid() && file == old(file) && noExtent
    {
      noExtent := true;
      FreeNodes();
      largest := largest.(len := 0);
    }

    /** f2fs_destroy_extent_node: the nodes go, `largest` stays for the next mount of the inode. */
    method DestroyNodes()
      requires Valid()
      modifies this`nodes, this`cached
      ensures Valid() && nodes == []
    {
      FreeNodes();
    }

    /** __free_extent_tree. */
    method FreeNodes()
      modifies this`nodes, this`cached
      ensures nodes == [] && cached == -1
    {
      nodes, cached := [], -1;
    }

    /**
      f2fs_update_extent_tree_range: file offsets [fofs, fofs+len) now live at
      blk.., or nowhere when blk is NULL_ADDR.  `splitOk` and `insertOk` say
      whether the two node allocations succeed.
    */
    method Update(fofs: nat, blk: nat, len: nat, splitOk: bool, insertOk: bool) returns (updated: bool)
      requires Valid() && len >= 1
      modifies this
      ensures Valid() && file == Overwrite(old(file), fofs, blk, len)
      ensures old(noExtent) ==> noExtent
      // while the tree is kept, it says the new range and what survived, and nothing else
      ensures !noExtent ==> forall o, b :: TreeMaps(nodes, o, b) ==>
                (Maps(Extent(fofs, len, blk), o, b) && blk != 0) ||
                Kept(old(nodes), Cut(fofs, fofs + len, splitOk), o, b)
      ensures !noExtent ==> forall o, b :: Kept(old(nodes), Cut(fofs, fofs + len, splitOk), o, b) ==>
                TreeMaps(nodes, o, b)
      ensures !noExtent && blk != 0 && insertOk ==>
                forall o, b :: Maps(Extent(fofs, len, blk), o, b) ==> TreeMaps(nodes, o, b)
      // the new range is in one node, and largest is no shorter than that node and than every piece kept of a cut one
      ensures !noExtent && blk != 0 && insertOk ==>
                exists i :: 0 <= i < |nodes| && Holds(nodes[i], fofs, len) && nodes[i].len <= largest.len
      ensures !noExtent ==> CoversLeftovers(old(nodes), |old(nodes)|, Cut(fofs, fofs + len, splitOk), largest)
      // a largest that does not meet the range gives way to a longer one only, and a change marks the inode dirty
      ensures !noExtent && !Cut(fofs, fofs + len, splitOk).Overlaps(old(largest)) ==>
                largest == old(largest) || largest.len > old(largest).len
      ensures largest != old(largest) ==> updated
      // it is given up exactly when small updates keep splitting small extents
      ensures noExtent && !old(noExtent) <==>
              && !old(noExtent) && blk != 0 && old(largest).len < MIN_EXTENT_LEN
              && AllSmall(old(nodes), Cut(fofs, fofs + len, splitOk), Extent(fofs, len, blk), insertOk)
    {
      hide Ordered, AllRepeat, Repeats, TreeMaps, Maps, Kept, Meets, Overwrite, Carve, Place, Joined, Placed;
      hide CoversLeftovers, AllSmall, IsLeftover, Separate;
      updated := false;
      file := Overwrite(file, fofs, blk, len);
      if noExtent {
        EmptyRepeats(nodes, largest, file);
        return;
      }
      var prevLen := largest.len;
      var c := Cut(fofs, fofs + len, splitOk);
      var cur, hasPrev, seen := ClearRange(c);
      ghost var carved, cutLargest := nodes, largest;
      CarvedTree(old(nodes), c, old(file), blk);
      CarveSeparate(old(nodes), c);
      CarvedLargest(old(nodes), c, old(file), blk, old(largest), largest);

      if blk != 0 {
        var ei := Extent(fofs, len, blk);
        MergeOrInsert(cur, hasPrev, ei, insertOk);
        InsideRepeats(old(file), fofs, blk, len);
        PlacedTree(carved, cur, hasPrev, ei, insertOk, file);
        PlacedHolds(carved, cur, hasPrev, ei, insertOk);
        PlaceSeparate(carved, cur, hasPrev, ei, insertOk);
        LongerCovers(old(nodes), c, cutLargest, largest);
        SmallIff(old(nodes), c, ei, insertOk, cur, hasPrev, old(largest), cutLargest);
        if seen && prevLen < MIN_EXTENT_LEN && largest.len < MIN_EXTENT_LEN {
          largest, largestUpdated := largest.(len := 0), true;
          noExtent := true;
          FreeNodes();
          EmptyRepeats(nodes, largest, file);
        }
      }
      updated, largestUpdated := largestUpdated, false;
    }

    /** __drop_largest_extent. */
    method DropLargest(c: Cut)
      modifies this`largest, this`largestUpdated
      ensures largest == if c.Overlaps(old(largest)) then old(largest).(len := 0) else old(largest)
      ensures largestUpdated == (old(largestUpdated) || c.Overlaps(old(largest)))
    {
      if c.fofs < largest.End() && c.end > largest.fofs {
        largest, largestUpdated := largest.(len := 0), true;
      }
    }

    /** Steps 1 and 2: drop `largest` if it meets the range, and clear the range out of the tree. */
    method ClearRange(c: Cut) returns (cur: nat, hasPrev: bool, seen: bool)
      requires c.fofs < c.end && Ordered(nodes) && -1 <= cached < |nodes|
      modifies this`nodes, this`cached, this`largest, this`largestUpdated
      ensures nodes == Carve(old(nodes), |old(nodes)|, c) && -1 <= cached < |nodes|
      ensures FromCut(old(nodes), c, old(largest), largest)
      ensures CoversLeftovers(old(nodes), |old(nodes)|, c, largest)
      ensures !c.Overlaps(old(largest)) ==> largest == old(largest) || largest.len > old(largest).len
      ensures largest != old(largest) ==> largestUpdated
      ensures Fits(nodes, cur, Extent(c.fofs, c.end - c.fofs, 0))
      ensures cur > 0 ==> hasPrev || nodes[cur - 1].End() < c.fofs
      ensures seen <==> Meets(old(nodes), c)
    {
      hide Ordered, Carve, Swept, NextIndex, Meets, IsLeftover, CoversLeftovers;
      DropLargest(c);
      var k, prev := FirstInRange(c.fofs);
      CarveLeft(nodes, k, c);
      seen := k < |nodes| && nodes[k].fofs < c.end;     // the loop below runs: dei.len >= 1
      FirstMeets(nodes, k, c);
      ghost var j;
      cur, hasPrev, j := Invalidate(k, prev, c);
      SweepEnds(old(nodes), j, c, cur, nodes, largest);
    }
  }

  /** Some node of the tree says that `o` lives in `b`, outside the range and not in a short leftover. */
  ghost predicate Kept(s: seq<Extent>, c: Cut, o: nat, b: nat) {
    exists i :: 0 <= i < |s| && Maps(s[i], o, b) && c.Survives(s[i], o)
  }

  /** Some node of the tree meets the range. */
  ghost predicate Meets(s: seq<Extent>, c: Cut) {
    exists i :: 0 <= i < |s| && c.Overlaps(s[i])
  }

  lemma FirstMeets(s: seq<Extent>, k: nat, c: Cut)
    requires Ordered(s) && k <= |s|
    requires forall i :: 0 <= i < k ==> s[i].End() <= c.fofs
    requires forall i :: k <= i < |s| ==> c.fofs < s[i].End()
    ensures Meets(s, c) <==> k < |s| && s[k].fofs < c.end
  {
    if Meets(s, c) {
      var i :| 0 <= i < |s| && c.Overlaps(s[i]);
      assert i == k || (k < i && s[k].End() <= s[i].fofs);
    }
  }

  /** `e` is an emptied or untouched `largest`, or a piece that clearing the range left over. */
  ghost predicate FromCut(was: seq<Extent>, c: Cut, largest: Extent, e: Extent) {
    || e.len == 0
    || (e == largest && !c.Overlaps(e))
    || IsLeftover(was, c, e)
  }

  /** `e` is a piece kept of a node that met the range. */
  ghost predicate IsLeftover(was: seq<Extent>, c: Cut, e: Extent) {
    exists i :: 0 <= i < |was| && c.Overlaps(was[i]) && e in c.Pieces(was[i])
  }

  /** `largest` is no shorter than any piece kept of the first `n` nodes. */
  ghost predicate CoversLeftovers(was: seq<Extent>, n: nat, c: Cut, largest: Extent)
    requires n <= |was|
  {
    forall i, x :: 0 <= i < n && c.Overlaps(was[i]) && x in c.Pieces(was[i]) ==> x.len <= largest.len
  }

  /** `largest` stayed or became longer, and a change set largest_updated. */
  ghost predicate Followed(largest: Extent, updated: bool, largest': Extent, updated': bool) {
    && (largest' == largest || largest'.len > largest.len)
    && (updated || largest' != largest ==> updated')
  }

  /** All of [fofs, fofs+len) is in extent `e`. */
  ghost predicate Holds(e: Extent, fofs: nat, len: nat) {
    e.fofs <= fofs && fofs + len <= e.End()
  }

  /** The blocks that the tree holds right before and right after `ei`, as one run with it. */
  ghost function RunBefore(s: seq<Extent>, ei: Extent): nat {
    if exists x :: x in s && Mergeable(x, ei) then (var x :| x in s && Mergeable(x, ei); x.len) else 0
  }

  ghost function RunAfter(s: seq<Extent>, ei: Extent): nat {
    if exists x :: x in s && Mergeable(ei, x) then (var x :| x in s && Mergeable(ei, x); x.len) else 0
  }

  /**
    The update meets a node of the tree, leaves no piece of it long enough to keep, and the new extent
    with the runs it continues, if there is a node for it, is short as well.
  */
  ghost predicate AllSmall(was: seq<Extent>, c: Cut, ei: Extent, insertOk: bool) {
    var before, after := RunBefore(was, ei), RunAfter(was, ei);
    && Meets(was, c)
    && NoneLeft(was, c)
    && (insertOk || before + after > 0 ==> before + ei.len + after < MIN_EXTENT_LEN)
  }

  lemma PlacedHolds(s: seq<Extent>, k: nat, usePrev: bool, ei: Extent, insertOk: bool)
    requires k <= |s|
    ensures insertOk ==> Placed(s, k, usePrev, ei, insertOk)
    ensures Placed(s, k, usePrev, ei, insertOk) ==>
              var r := Place(s, k, usePrev, ei, insertOk);
              exists i :: 0 <= i < |r| && Holds(r[i], ei.fofs, ei.len) && r[i] == Joined(s, k, usePrev, ei)
  {
    if Placed(s, k, usePrev, ei, insertOk) {
      var i := if BackMerges(s, k, usePrev, ei) then k - 1 else k;
      assert Place(s, k, usePrev, ei, insertOk)[i] == Joined(s, k, usePrev, ei);
    }
  }

  lemma CoversStep(was: seq<Extent>, j: nat, c: Cut, l: Extent, l': Extent)
    requires j < |was| && c.Overlaps(was[j]) && CoversLeftovers(was, j, c, l) && l.len <= l'.len
    requires (l' == l || l' in c.Pieces(was[j])) && forall x :: x in c.Pieces(was[j]) ==> x.len <= l'.len
    ensures CoversLeftovers(was, j + 1, c, l') && (l' == l || IsLeftover(was, c, l'))
  {
    hide c.Pieces;
  }

  lemma RestCovers(was: seq<Extent>, j: nat, c: Cut, largest: Extent)
    requires j <= |was| && CoversLeftovers(was, j, c, largest)
    requires forall i :: j <= i < |was| ==> !c.Overlaps(was[i])
    ensures CoversLeftovers(was, |was|, c, largest)
  {
  }

  /** Where the loop stops, the whole tree is carved and the range falls between two nodes. */
  lemma SweepEnds(was: seq<Extent>, j: nat, c: Cut, cur: nat, now: seq<Extent>, largest: Extent)
    requires Ordered(was) && c.fofs < c.end && j <= |was| && CoversLeftovers(was, j, c, largest)
    requires now == Swept(was, j, c) && cur == NextIndex(was, j, c) && cur <= |now|
    requires cur < |now| ==> c.end <= now[cur].fofs
    requires cur > 0 ==> now[cur - 1].fofs < c.end
    ensures now == Carve(was, |was|, c) && CoversLeftovers(was, |was|, c, largest)
    ensures Fits(now, cur, Extent(c.fofs, c.end - c.fofs, 0))
  {
    hide Carve, Swept, NextIndex, CoversLeftovers, Ordered;
    RestUntouched(was, j, c, cur, now);
    RestCovers(was, j, c, largest);
    CarveOrdered(was, |was|, c);
    CutAt(now, cur, c);
  }

  lemma LongerCovers(was: seq<Extent>, c: Cut, l: Extent, l': Extent)
    requires CoversLeftovers(was, |was|, c, l) && l.len <= l'.len
    ensures CoversLeftovers(was, |was|, c, l')
  {
  }

  lemma {:induction false} CarveHas(s: seq<Extent>, n: nat, c: Cut, x: Extent)
    requires n <= |s|
    ensures x in Carve(s, n, c) <==> exists i :: 0 <= i < n && x in c.Pieces(s[i])
  {
    hide c.Pieces;
    if n > 0 {
      CarveHas(s, n - 1, c, x);
      var a, b := Carve(s, n - 1, c), c.Pieces(s[n - 1]);
      assert Carve(s, n, c) == a + b;
      assert x in a + b <==> x in a || x in b;
    }
  }

  /** A node that `ei` continues is found in the carved tree if it was in the tree before. */
  lemma CarveHasNeighbour(was: seq<Extent>, c: Cut, ei: Extent, x: Extent)
    requires Ordered(was) && c.fofs < c.end && ei.fofs == c.fofs && ei.End() == c.end && NoneLeft(was, c)
    requires Mergeable(x, ei) || Mergeable(ei, x)
    ensures x in Carve(was, |was|, c) <==> x in was
  {
    CarveHas(was, |was|, c, x);
    if x in was {
      var i :| 0 <= i < |was| && was[i] == x;
      assert x in c.Pieces(was[i]);
    }
  }

  /** A piece that touches another extent does so where the extent it was cut from did. */
  lemma PiecesTouch(a: Extent, b: Extent, c: Cut, x: Extent, y: Extent)
    requires c.fofs < c.end && a.len >= 1 && b.len >= 1 && x in c.Pieces(a) && y in c.Pieces(b) && Mergeable(x, y)
    ensures Mergeable(a, b)
  {
    PiecesInside(a, c);
    PiecesInside(b, c);
  }

  /** Cutting a range out leaves no two nodes that could be one. */
  lemma CarveSeparate(was: seq<Extent>, c: Cut)
    requires Ordered(was) && Separate(was) && c.fofs < c.end
    ensures Separate(Carve(was, |was|, c))
  {
    hide Carve, c.Pieces;
    forall x, y | x in Carve(was, |was|, c) && y in Carve(was, |was|, c)
      ensures !Mergeable(x, y)
    {
      CarveHas(was, |was|, c, x);
      CarveHas(was, |was|, c, y);
      var i :| 0 <= i < |was| && x in c.Pieces(was[i]);
      var j :| 0 <= j < |was| && y in c.Pieces(was[j]);
      if Mergeable(x, y) { PiecesTouch(was[i], was[j], c, x, y); }
    }
  }

  /** Neither does placing an extent: it was merged wherever it could be. */
  lemma PlaceSeparate(s: seq<Extent>, k: nat, usePrev: bool, ei: Extent, insertOk: bool)
    requires Ordered(s) && Separate(s) && Fits(s, k, ei) && (k > 0 ==> usePrev || s[k - 1].End() < ei.fofs)
    ensures Separate(Place(s, k, usePrev, ei, insertOk))
  {
    hide Ordered, Joined, BackMerges, FrontMerges, Place;
    var r := Place(s, k, usePrev, ei, insertOk);
    JoinedTouches(s, k, usePrev, ei);
    forall x | x in r
      ensures x in s || x == Joined(s, k, usePrev, ei)
    {
      PlaceHas(s, k, usePrev, ei, insertOk, x);
    }
  }

  lemma PlaceHas(s: seq<Extent>, k: nat, usePrev: bool, ei: Extent, insertOk: bool, x: Extent)
    requires k <= |s| && x in Place(s, k, usePrev, ei, insertOk)
    ensures x in s || x == Joined(s, k, usePrev, ei)
  {
    hide Joined, BackMerges, FrontMerges;
  }

  lemma JoinedTouches(s: seq<Extent>, k: nat, usePrev: bool, ei: Extent)
    requires Ordered(s) && Separate(s) && Fits(s, k, ei) && (k > 0 ==> usePrev || s[k - 1].End() < ei.fofs)
    ensures var mid := Joined(s, k, usePrev, ei);
            !Mergeable(mid, mid) && forall x :: x in s ==> !Mergeable(x, mid) && !Mergeable(mid, x)
  {
    BackIs(s, k, usePrev, ei);
    FrontIs(s, k, usePrev, ei);
    var mid := Joined(s, k, usePrev, ei);
    forall x | x in s
      ensures !Mergeable(x, mid) && !Mergeable(mid, x)
    {
      if BackMerges(s, k, usePrev, ei) { assert !Mergeable(x, s[k - 1]); }
      if FrontMerges(s, k, usePrev, ei) { assert !Mergeable(s[k], x); }
    }
  }

  lemma RunBeforeIs(s: seq<Extent>, ei: Extent, x: Extent)
    requires Ordered(s) && x in s && Mergeable(x, ei)
    ensures RunBefore(s, ei) == x.len > 0
  {
    forall y | y in s && Mergeable(y, ei)
      ensures y == x
    {
      var i :| 0 <= i < |s| && s[i] == x;
      var j :| 0 <= j < |s| && s[j] == y;
      assert s[i].End() <= s[j].fofs || s[j].End() <= s[i].fofs || i == j;
    }
  }

  lemma RunAfterIs(s: seq<Extent>, ei: Extent, x: Extent)
    requires Ordered(s) && x in s && Mergeable(ei, x)
    ensures RunAfter(s, ei) == x.len > 0
  {
    forall y | y in s && Mergeable(ei, y)
      ensures y == x
    {
      var i :| 0 <= i < |s| && s[i] == x;
      var j :| 0 <= j < |s| && s[j] == y;
      assert s[i].End() <= s[j].fofs || s[j].End() <= s[i].fofs || i == j;
    }
  }

  /** Of the nodes around the gap, the last before it is the only one that can continue into `ei`. */
  lemma BackIs(s: seq<Extent>, k: nat, usePrev: bool, ei: Extent)
    requires Ordered(s) && Fits(s, k, ei) && (k > 0 ==> usePrev || s[k - 1].End() < ei.fofs)
    ensures BackMerges(s, k, usePrev, ei) <==> exists x :: x in s && Mergeable(x, ei)
  {
    if x :| x in s && Mergeable(x, ei) {
      var i :| 0 <= i < |s| && s[i] == x;
      assert i < k;
    }
  }

  lemma FrontIs(s: seq<Extent>, k: nat, usePrev: bool, ei: Extent)
    requires Ordered(s) && Fits(s, k, ei)
    ensures FrontMerges(s, k, usePrev, ei) <==> k < |s| && Mergeable(ei, s[k])
    ensures FrontMerges(s, k, usePrev, ei) <==> exists x :: x in s && Mergeable(ei, x)
  {
    if x :| x in s && Mergeable(ei, x) {
      var i :| 0 <= i < |s| && s[i] == x;
      assert i == k || s[k].End() <= s[i].fofs;
    }
  }

  ghost predicate NoneLeft(was: seq<Extent>, c: Cut) {
    forall i :: 0 <= i < |was| && c.Overlaps(was[i]) ==> !c.KeepsHead(was[i]) && !c.KeepsTail(was[i])
  }

  lemma JoinedLen(s: seq<Extent>, was: seq<Extent>, ei: Extent, k: nat, usePrev: bool)
    requires Ordered(s) && Ordered(was) && Fits(s, k, ei) && (k > 0 ==> usePrev || s[k - 1].End() < ei.fofs)
    requires forall x :: Mergeable(x, ei) || Mergeable(ei, x) ==> (x in s <==> x in was)
    ensures var before, after := RunBefore(was, ei), RunAfter(was, ei);
            && Joined(s, k, usePrev, ei).len == before + ei.len + after
            && (BackMerges(s, k, usePrev, ei) || FrontMerges(s, k, usePrev, ei) <==> before + after > 0)
  {
    hide Ordered;
    BackIs(s, k, usePrev, ei);
    FrontIs(s, k, usePrev, ei);
    if BackMerges(s, k, usePrev, ei) { RunBeforeIs(was, ei, s[k - 1]); }
    if FrontMerges(s, k, usePrev, ei) { RunAfterIs(was, ei, s[k]); }
  }

  /** With no leftover kept, the joined extent is `ei` and the runs of the tree before that it continues. */
  lemma JoinedRun(was: seq<Extent>, c: Cut, ei: Extent, k: nat, usePrev: bool)
    requires Ordered(was) && c.fofs < c.end && ei.fofs == c.fofs && ei.End() == c.end && NoneLeft(was, c)
    requires var s := Carve(was, |was|, c); Fits(s, k, ei) && (k > 0 ==> usePrev || s[k - 1].End() < ei.fofs)
    ensures var s := Carve(was, |was|, c);
            var before, after := RunBefore(was, ei), RunAfter(was, ei);
            && Joined(s, k, usePrev, ei).len == before + ei.len + after
            && (BackMerges(s, k, usePrev, ei) || FrontMerges(s, k, usePrev, ei) <==> before + after > 0)
  {
    hide Carve, Ordered, NoneLeft, RunBefore, RunAfter, Joined, BackMerges, FrontMerges;
    var s := Carve(was, |was|, c);
    CarveOrdered(was, |was|, c);
    forall x | Mergeable(x, ei) || Mergeable(ei, x)
      ensures x in s <==> x in was
    {
      CarveHasNeighbour(was, c, ei, x);
    }
    JoinedLen(s, was, ei, k, usePrev);
  }

  lemma LeftoverIff(was: seq<Extent>, c: Cut)
    ensures NoneLeft(was, c) <==> forall e :: !IsLeftover(was, c, e)
    ensures forall e :: IsLeftover(was, c, e) ==> e.len >= MIN_EXTENT_LEN
  {
    if !NoneLeft(was, c) {
      var i :| 0 <= i < |was| && c.Overlaps(was[i]) && (c.KeepsHead(was[i]) || c.KeepsTail(was[i]));
      assert IsLeftover(was, c, c.Pieces(was[i])[0]);
    }
  }

  /** Every extent that `largest` was compared with is short exactly if the tree before the update says so. */
  lemma SmallIff(was: seq<Extent>, c: Cut, ei: Extent, insertOk: bool, k: nat, usePrev: bool, l: Extent, l': Extent)
    requires Ordered(was) && c.fofs < c.end && ei.fofs == c.fofs && ei.End() == c.end
    requires var s := Carve(was, |was|, c); Fits(s, k, ei) && (k > 0 ==> usePrev || s[k - 1].End() < ei.fofs)
    requires FromCut(was, c, l, l') && CoversLeftovers(was, |was|, c, l')
    ensures var s := Carve(was, |was|, c);
            l.len < MIN_EXTENT_LEN ==>
            (AllSmall(was, c, ei, insertOk) <==>
             && Meets(was, c) && l'.len < MIN_EXTENT_LEN
             && (Placed(s, k, usePrev, ei, insertOk) ==> Joined(s, k, usePrev, ei).len < MIN_EXTENT_LEN))
  {
    LeftoverIff(was, c);
    if NoneLeft(was, c) {
      JoinedRun(was, c, ei, k, usePrev);
    } else {
      var e :| IsLeftover(was, c, e);
      assert e.len <= l'.len;
    }
  }

  lemma CarvedTree(was: seq<Extent>, c: Cut, file: imap<nat, nat>, blk: nat)
    requires Ordered(was) && c.fofs < c.end && AllRepeat(was, file)
    ensures var now := Carve(was, |was|, c);
            && Ordered(now) && AllRepeat(now, Overwrite(file, c.fofs, blk, c.end - c.fofs))
            && forall o, b :: TreeMaps(now, o, b) <==> Kept(was, c, o, b)
  {
    CarveOrdered(was, |was|, c);
    CarveRepeats(was, |was|, file, blk, c);
    forall o, b
      ensures TreeMaps(Carve(was, |was|, c), o, b) <==> Kept(was, c, o, b)
    {
      CarveMaps(was, |was|, c, o, b);
    }
  }

  lemma CarvedLargest(was: seq<Extent>, c: Cut, file: imap<nat, nat>, blk: nat, largest: Extent, e: Extent)
    requires Ordered(was) && c.fofs < c.end && AllRepeat(was, file) && Repeats(largest, file)
    requires FromCut(was, c, largest, e)
    ensures Repeats(e, Overwrite(file, c.fofs, blk, c.end - c.fofs))
  {
    if i :| 0 <= i < |was| && e in c.Pieces(was[i]) {
      PiecesRepeat(was[i], file, blk, c);
    } else if e.len > 0 {
      OutsideRepeats(e, file, c.fofs, blk, c.end - c.fofs);
    }
  }

  lemma PlacedTree(s: seq<Extent>, k: nat, usePrev: bool, ei: Extent, insertOk: bool, file: imap<nat, nat>)
    requires Ordered(s) && Fits(s, k, ei) && AllRepeat(s, file) && Repeats(ei, file)
    ensures var r := Place(s, k, usePrev, ei, insertOk);
            && Ordered(r) && AllRepeat(r, file)
            && (forall o, b :: TreeMaps(r, o, b) ==> TreeMaps(s, o, b) || Maps(ei, o, b))
            && (forall o, b :: TreeMaps(s, o, b) ==> TreeMaps(r, o, b))
            && (insertOk ==> forall o, b :: Maps(ei, o, b) ==> TreeMaps(r, o, b))
            && (Placed(s, k, usePrev, ei, insertOk) ==> Repeats(Joined(s, k, usePrev, ei), file))
  {
    hide Ordered, AllRepeat, TreeMaps, Place, Joined;
    var r := Place(s, k, usePrev, ei, insertOk);
    PlaceOrdered(s, k, usePrev, ei, insertOk);
    forall o, b
      ensures TreeMaps(r, o, b) <==> TreeMaps(s, o, b) || (Placed(s, k, usePrev, ei, insertOk) && Maps(ei, o, b))
    {
      PlaceMaps(s, k, usePrev, ei, insertOk, o, b);
    }
    AllRepeatIff(s, file);
    AllRepeatIff(r, file);
    PlacedHolds(s, k, usePrev, ei, insertOk);
    InTreeRepeats(r, Joined(s, k, usePrev, ei), file);
  }

  /** The tree when the loop has carved its first `j` nodes. */
  ghost function Swept(was: seq<Extent>, j: nat, c: Cut): seq<Extent>
    requires j <= |was|
  {
    Carve(was, j, c) + was[j..]
  }

  /** The node to look at when the first `j` are carved: a tail that was just kept, or the next one. */
  ghost function NextIndex(was: seq<Extent>, j: nat, c: Cut): nat
    requires j <= |was|
  {
    var p := Carve(was, j, c);
    if |p| > 0 && p[|p| - 1].fofs >= c.end then |p| - 1 else |p|
  }

  lemma SweptStart(was: seq<Extent>, k: nat, c: Cut)
    requires k <= |was| && Carve(was, k, c) == was[..k] && (k > 0 ==> was[k - 1].fofs < c.end)
    ensures was == Swept(was, k, c) && k == NextIndex(was, k, c)
  {
  }

  lemma SweptAt(was: seq<Extent>, j: nat, c: Cut, cur: nat)
    requires j <= |was| && cur == NextIndex(was, j, c)
    requires cur < |Swept(was, j, c)| && Swept(was, j, c)[cur].fofs < c.end
    ensures j < |was| && cur == |Carve(was, j, c)| && Swept(was, j, c)[cur] == was[j]
  {
  }

  lemma SweptStep(was: seq<Extent>, j: nat, c: Cut, cur: nat, cur': nat, now': seq<Extent>)
    requires j < |was| && cur == |Carve(was, j, c)|
    requires var now, p := Swept(was, j, c), c.Pieces(was[j]);
             && now' == now[..cur] + p + now[cur + 1..]
             && cur' == cur + (if |p| > 0 && p[|p| - 1].fofs >= c.end then |p| - 1 else |p|)
             && (cur > 0 ==> now[cur - 1].fofs < c.end)
    ensures now' == Swept(was, j + 1, c) && cur' == NextIndex(was, j + 1, c)
  {
    hide c.Pieces;
    var now, done, p := Swept(was, j, c), Carve(was, j, c), c.Pieces(was[j]);
    assert now[..cur] == done;
    assert now[cur + 1..] == was[j + 1..];
    assert Carve(was, j + 1, c) == done + p;
  }
}
