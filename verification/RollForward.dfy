/**
  Roll-forward recovery (recovery.c): two walks over the chain of node blocks
  written after the last checkpoint.  The first finds the inodes that were
  fsynced, the second replays them.

  The log maps each valid block address to the node block found there.  Errors
  of the layers below (reading a page, loading an inode, writing a dentry) may
  happen at any point: `faults` holds the block addresses where they do.
*/
module RollForward {

  import opened Options
  import opened Errno

  /** A node block: its own address, its inode, the footer flags, and the address of the next one. */
  datatype Node = Node(addr: nat, ino: nat, isInode: bool, fsync: bool, dent: bool, recoverable: bool, next: nat) {
    /** inode(DF): the inode block carries both marks. */
    predicate CreatesInode() { fsync && isInode && dent }
  }

  type Log = log: map<nat, Node> | forall a :: a in log ==> log[a].addr == a witness map[]

  /** struct fsync_inode_entry: the last fsynced block of an inode, and its last inode(DF). */
  datatype Entry = Entry(ino: nat, blkaddr: nat, lastDentry: Option<nat>)

  // ------------------------------------------------------------- the chain

  ghost function NextOf(start: nat, chain: seq<Node>): nat {
    if chain == [] then start else chain[|chain| - 1].next
  }

  /** Node `i` of the chain is the recoverable block that its predecessor points to. */
  ghost predicate Linked(log: Log, start: nat, chain: seq<Node>, i: nat)
    requires i < |chain|
  {
    && chain[i].addr == (if i == 0 then start else chain[i - 1].next)
    && chain[i].addr in log && log[chain[i].addr] == chain[i] && chain[i].recoverable
  }

  /** `chain` is what a walk from `start` meets first. */
  ghost predicate IsWalk(log: Log, start: nat, chain: seq<Node>) {
    forall i :: 0 <= i < |chain| ==> Linked(log, start, chain, i)
  }

  /** The walk ends there: the next address is invalid or holds a block of another checkpoint. */
  ghost predicate Ends(log: Log, start: nat, chain: seq<Node>) {
    var a := NextOf(start, chain); a in log ==> !log[a].recoverable
  }

  ghost predicate Complete(log: Log, start: nat, chain: seq<Node>) {
    IsWalk(log, start, chain) && Ends(log, start, chain)
  }

  lemma WalkExtend(log: Log, start: nat, chain: seq<Node>)
    requires IsWalk(log, start, chain)
    requires NextOf(start, chain) in log && log[NextOf(start, chain)].recoverable
    ensures IsWalk(log, start, chain + [log[NextOf(start, chain)]])
  {
    var c := chain + [log[NextOf(start, chain)]];
    forall i | 0 <= i < |c|
      ensures Linked(log, start, c, i)
    {
      assert i < |chain| ==> Linked(log, start, chain, i);
    }
  }

  lemma {:induction false} SameSuffix(log: Log, start: nat, chain: seq<Node>, i: nat, j: nat, d: nat)
    requires IsWalk(log, start, chain) && i < j && j + d < |chain| && chain[i] == chain[j]
    ensures chain[i + d] == chain[j + d]
  {
    if d > 0 {
      SameSuffix(log, start, chain, i, j, d - 1);
      assert Linked(log, start, chain, i + d) && Linked(log, start, chain, j + d);
    }
  }

  /** A walk that ends never meets a block twice, whatever the log looks like. */
  lemma CompleteIsDistinct(log: Log, start: nat, chain: seq<Node>, i: nat, j: nat)
    requires Complete(log, start, chain) && i < j < |chain|
    ensures chain[i].addr != chain[j].addr
  {
    var d := |chain| - 1 - j;
    assert Linked(log, start, chain, i) && Linked(log, start, chain, j) && Linked(log, start, chain, i + d + 1);
    if chain[i].addr == chain[j].addr {
      SameSuffix(log, start, chain, i, j, d);
    }
  }

  /** The walk is a function of the log: any walk is a prefix of the complete one. */
  lemma {:induction false} WalkUnique(log: Log, start: nat, walk: seq<Node>, chain: seq<Node>, k: nat)
    requires IsWalk(log, start, walk) && Complete(log, start, chain) && k < |walk|
    ensures k < |chain| && walk[k] == chain[k]
  {
    if k > 0 { WalkUnique(log, start, walk, chain, k - 1); }
    assert Linked(log, start, walk, k);
    if k < |chain| { assert Linked(log, start, chain, k); }
  }

  // --------------------------------------------- what the chain asks for

  /** The index of the last fsync-marked node of `ino`, or -1. */
  function LastFsync(chain: seq<Node>, ino: nat): int {
    if chain == [] then -1
    else
      var n := |chain| - 1;
      if chain[n].ino == ino && chain[n].fsync then n else LastFsync(chain[..n], ino)
  }

  /** The index of the last inode(DF) of `ino`, or -1. */
  function LastCreate(chain: seq<Node>, ino: nat): int {
    if chain == [] then -1
    else
      var n := |chain| - 1;
      if chain[n].ino == ino && chain[n].CreatesInode() then n else LastCreate(chain[..n], ino)
  }

  /**
    An inode is recovered if it was fsynced and can be loaded: it is known to
    the checkpoint, or the chain holds an inode(DF) for it (scenarios 1-8 in the
    source).
  */
  predicate Wanted(chain: seq<Node>, known: set<nat>, ino: nat) {
    LastFsync(chain, ino) >= 0 && (ino in known || LastCreate(chain, ino) >= 0)
  }

  lemma {:induction false} LastRange(chain: seq<Node>, ino: nat)
    ensures -1 <= LastCreate(chain, ino) <= LastFsync(chain, ino) < |chain|
    ensures LastFsync(chain, ino) >= 0 ==> chain[LastFsync(chain, ino)].ino == ino && chain[LastFsync(chain, ino)].fsync
    ensures LastCreate(chain, ino) >= 0 ==>
              var n := chain[LastCreate(chain, ino)]; n.ino == ino && n.fsync && n.isInode && n.dent
  {
    if chain != [] { LastRange(chain[..|chain| - 1], ino); }
  }

  lemma {:induction false} LastIsLast(chain: seq<Node>, ino: nat, i: nat)
    requires i < |chain| && chain[i].ino == ino
    ensures chain[i].fsync ==> i <= LastFsync(chain, ino)
    ensures chain[i].fsync && chain[i].isInode && chain[i].dent ==> i <= LastCreate(chain, ino)
  {
    if i < |chain| - 1 {
      LastIsLast(chain[..|chain| - 1], ino, i);
    }
    LastRange(chain, ino);
  }

  lemma Snoc(chain: seq<Node>, n: Node, ino: nat)
    ensures LastFsync(chain + [n], ino) == if n.ino == ino && n.fsync then |chain| else LastFsync(chain, ino)
    ensures LastCreate(chain + [n], ino) == if n.ino == ino && n.CreatesInode() then |chain| else LastCreate(chain, ino)
  {
    assert (chain + [n])[..|chain|] == chain;
  }

  // ------------------------------------------------------------- first pass

  ghost predicate HasEntry(list: seq<Entry>, ino: nat) {
    exists i :: 0 <= i < |list| && list[i].ino == ino
  }

  ghost predicate DistinctInos(list: seq<Entry>) {
    forall i, j :: 0 <= i < j < |list| ==> list[i].ino != list[j].ino
  }

  /** What an entry must say about its inode. */
  ghost predicate RightEntry(chain: seq<Node>, e: Entry) {
    var f, c := LastFsync(chain, e.ino), LastCreate(chain, e.ino);
    && 0 <= f < |chain| && e.blkaddr == chain[f].addr
    && (c < 0 ==> e.lastDentry == None)
    && (0 <= c < |chain| ==> e.lastDentry == Some(chain[c].addr))
  }

  /** The list holds one right entry for each wanted inode, and nothing else. */
  ghost predicate RightList(chain: seq<Node>, known: set<nat>, list: seq<Entry>) {
    && DistinctInos(list)
    && (forall i :: 0 <= i < |list| ==> RightEntry(chain, list[i]))
    && (forall ino :: HasEntry(list, ino) <==> Wanted(chain, known, ino))
  }

  /** get_fsync_inode. */
  method FindEntry(list: seq<Entry>, ino: nat) returns (k: int)
    ensures -1 <= k < |list|
    ensures k >= 0 ==> list[k].ino == ino
    ensures k < 0 <==> !HasEntry(list, ino)
  {
    k := 0;
    while k < |list|
      invariant 0 <= k <= |list|
      invariant forall i :: 0 <= i < k ==> list[i].ino != ino
    {
      if list[k].ino == ino { return; }
      k := k + 1;
    }
    k := -1;
  }

  lemma RightAfterSkip(chain: seq<Node>, known: set<nat>, list: seq<Entry>, n: Node)
    requires RightList(chain, known, list)
    requires !n.fsync || (!n.CreatesInode() && n.ino !in known && !HasEntry(list, n.ino))
    ensures RightList(chain + [n], known, list)
  {
    forall ino
      ensures Wanted(chain + [n], known, ino) <==> Wanted(chain, known, ino)
      ensures HasEntry(list, ino) ==>
                LastFsync(chain + [n], ino) == LastFsync(chain, ino)
                && LastCreate(chain + [n], ino) == LastCreate(chain, ino)
    {
      Snoc(chain, n, ino);
      LastRange(chain, ino);
    }
    forall i | 0 <= i < |list|
      ensures RightEntry(chain + [n], list[i])
    {
      assert HasEntry(list, list[i].ino) && RightEntry(chain, list[i]);
      LastRange(chain, list[i].ino);
    }
  }

  /** The entry of `n`'s inode at `k` is made or updated; every other entry stays. */
  lemma RightAfterEntry(chain: seq<Node>, known: set<nat>, list: seq<Entry>, n: Node, k: nat, list': seq<Entry>)
    requires RightList(chain, known, list) && n.fsync && k < |list'|
    requires n.CreatesInode() || n.ino in known || HasEntry(list, n.ino)
    requires if k < |list| then list[k].ino == n.ino && list' == list[k := list'[k]]
             else !HasEntry(list, n.ino) && list' == list + [list'[k]]
    requires list'[k] == Entry(n.ino, n.addr,
                            if n.CreatesInode() then Some(n.addr) else if k < |list| then list[k].lastDentry else None)
    ensures RightList(chain + [n], known, list')
  {
    hide LastFsync, LastCreate;
    forall ino
      ensures LastRangeOf(chain, n, ino)
    {
      Snoc(chain, n, ino);
      LastRange(chain, ino);
    }
    forall i | 0 <= i < |list'|
      ensures RightEntry(chain + [n], list'[i])
    {
      assert LastRangeOf(chain, n, list'[i].ino);
      if i < |list| { assert RightEntry(chain, list[i]) && HasEntry(list, list[i].ino); }
      if i != k { assert list'[i] == list[i] && list[i].ino != n.ino; }
    }
    forall ino
      ensures HasEntry(list', ino) <==> Wanted(chain + [n], known, ino)
    {
      assert LastRangeOf(chain, n, ino);
      assert HasEntry(list, ino) <==> Wanted(chain, known, ino);
      if ino == n.ino {
        assert list'[k].ino == ino;
      } else if HasEntry(list, ino) {
        var i :| 0 <= i < |list| && list[i].ino == ino;
        assert list'[i] == list[i];
      }
    }
  }

  /** How the last marked nodes of `ino` change when `n` is met. */
  ghost predicate LastRangeOf(chain: seq<Node>, n: Node, ino: nat) {
    && -1 <= LastCreate(chain, ino) <= LastFsync(chain, ino) < |chain|
    && LastFsync(chain + [n], ino) == (if n.ino == ino && n.fsync then |chain| else LastFsync(chain, ino))
    && LastCreate(chain + [n], ino) == (if n.ino == ino && n.CreatesInode() then |chain| else LastCreate(chain, ino))
  }

  /** The walk from `start` is shorter than `limit` and no fault lies on it. */
  ghost predicate Healthy(log: Log, start: nat, chain: seq<Node>, limit: nat, faults: set<nat>) {
    && Complete(log, start, chain) && (chain == [] || |chain| < limit)
    && Readable(start, chain, faults)
  }

  ghost predicate Readable(start: nat, chain: seq<Node>, faults: set<nat>) {
    NextOf(start, chain) !in faults && forall i :: 0 <= i < |chain| ==> chain[i].addr !in faults
  }

  /** A walk that meets a fault, closes a loop or exceeds the limit is not the prefix of a healthy one. */
  lemma Unhealthy(log: Log, start: nat, walk: seq<Node>, chain: seq<Node>, limit: nat, faults: set<nat>)
    requires IsWalk(log, start, walk)
    requires || NextOf(start, walk) in faults
             || (|walk| > 0 && (|walk| >= limit || NextOf(start, walk) == walk[|walk| - 1].addr))
    ensures !Healthy(log, start, chain, limit, faults)
  {
    if walk != [] { assert Linked(log, start, walk, |walk| - 1); }
    if Healthy(log, start, chain, limit, faults) {
      if walk != [] { WalkUnique(log, start, walk, chain, |walk| - 1); }
      if |walk| < |chain| {
        assert Linked(log, start, chain, |walk|);
        if walk != [] { CompleteIsDistinct(log, start, chain, |walk| - 1, |walk|); }
      }
    }
  }

  /**
    find_fsync_dnodes: the first pass.  `known` are the inodes that can be
    loaded, `limit` is the number of free blocks, which bounds the chain.
  */
  method FindFsyncDnodes(log: Log, start: nat, known: set<nat>, limit: nat, faults: set<nat>)
    returns (r: Result, list: seq<Entry>, ghost chain: seq<Node>)
    ensures r.Ok? ==> Healthy(log, start, chain, limit, faults) && RightList(chain, known, list)
    ensures r.Err? ==> forall c :: !Healthy(log, start, c, limit, faults)
  {
    list, chain := [], [];
    var blkaddr, loopCnt := start, 0;
    while true
      invariant IsWalk(log, start, chain) && blkaddr == NextOf(start, chain)
      invariant RightList(chain, known, list)
      invariant loopCnt == |chain| && (chain == [] || |chain| < limit)
      invariant forall i :: 0 <= i < |chain| ==> chain[i].addr !in faults
      decreases limit - loopCnt
    {
      hide RightList;
      if blkaddr in faults {
        forall c ensures !Healthy(log, start, c, limit, faults) { Unhealthy(log, start, chain, c, limit, faults); }
        return Err(EIO), list, chain;
      }
      if blkaddr !in log || !log[blkaddr].recoverable { return Ok, list, chain; }
      var node := log[blkaddr];
      list := NoteNode(list, node, known, chain);
      WalkExtend(log, start, chain);
      chain := chain + [node];
      loopCnt := loopCnt + 1;
      if loopCnt >= limit || blkaddr == node.next {
        forall c ensures !Healthy(log, start, c, limit, faults) { Unhealthy(log, start, chain, c, limit, faults); }
        return Err(EINVAL), list, chain;
      }
      blkaddr := node.next;
    }
  }

  /** What the first pass does with one node: make or update the entry of its inode. */
  method NoteNode(list: seq<Entry>, node: Node, known: set<nat>, ghost chain: seq<Node>) returns (list': seq<Entry>)
    requires RightList(chain, known, list)
    ensures RightList(chain + [node], known, list')
  {
    list' := list;
    if !node.fsync {
      RightAfterSkip(chain, known, list, node);
      return;
    }
    var k := FindEntry(list, node.ino);
    if k < 0 {
      // f2fs_recover_inode_page makes an inode(DF) loadable
      if !node.CreatesInode() && node.ino !in known {
        RightAfterSkip(chain, known, list, node);     // -ENOENT: goto next
        return;
      }
      list' := list + [Entry(node.ino, node.addr, None)];
      k := |list|;
    }
    list' := list'[k := list'[k].(blkaddr := node.addr)];
    if node.isInode && node.dent {
      list' := list'[k := list'[k].(lastDentry := Some(node.addr))];
    }
    RightAfterEntry(chain, known, list, node, k, list');
  }

  // ------------------------------------------------------------ second pass

  /** One replayed node; its inode page is also taken over if it is one, and its dentry if `dentry`. */
  datatype Action = Replay(node: Node, dentry: bool)

  /** Where the second pass fails: reading a page, recover_inode, recover_dentry, do_recover_data. */
  datatype Trouble = Trouble(read: set<nat>, inode: set<nat>, dentry: set<nat>, data: set<nat>)

  /** A node whose replay failed, and which of its parts had been taken over before. */
  datatype Half = Half(node: Node, inodeDone: bool, dentryDone: bool)

  /** No part of the replay of node `i` fails. */
  predicate Smooth(chain: seq<Node>, i: nat, t: Trouble)
    requires i < |chain|
  {
    var n := chain[i];
    && (n.isInode ==> n.addr !in t.inode) && (i == LastCreate(chain, n.ino) ==> n.addr !in t.dentry)
    && n.addr !in t.data
  }

  /** How far the replay of node `i` gets. */
  function HalfOf(chain: seq<Node>, i: nat, t: Trouble): Half
    requires i < |chain|
  {
    var n := chain[i];
    Half(n, n.isInode && n.addr !in t.inode,
         (n.isInode ==> n.addr !in t.inode) && i == LastCreate(chain, n.ino) && n.addr !in t.dentry)
  }

  /** Every node to be replayed is replayed in full. */
  ghost predicate Replayable(chain: seq<Node>, known: set<nat>, t: Trouble) {
    forall i :: 0 <= i < |chain| && Replayed(chain, known, i) ==> Smooth(chain, i, t)
  }

  /** Node `i` is replayed: its inode is wanted and was fsynced here or later. */
  predicate Replayed(chain: seq<Node>, known: set<nat>, i: nat)
    requires i < |chain|
  {
    Wanted(chain, known, chain[i].ino) && i <= LastFsync(chain, chain[i].ino)
  }

  /** The replay of the first `k` nodes of the chain. */
  function ReplayOf(chain: seq<Node>, known: set<nat>, k: nat): seq<Action>
    requires k <= |chain|
  {
    if k == 0 then []
    else
      var i := k - 1;
      ReplayOf(chain, known, i) +
      (if Replayed(chain, known, i) then [Replay(chain[i], i == LastCreate(chain, chain[i].ino))] else [])
  }

  /** The inode list when the second pass is at node `k`: the wanted inodes whose last fsync is still to come. */
  ghost predicate ToCome(chain: seq<Node>, known: set<nat>, list: seq<Entry>, k: nat) {
    && DistinctInos(list)
    && (forall i :: 0 <= i < |list| ==> RightEntry(chain, list[i]))
    && (forall ino :: HasEntry(list, ino) <==> Wanted(chain, known, ino) && LastFsync(chain, ino) >= k)
  }

  lemma ToComeStep(chain: seq<Node>, known: set<nat>, list: seq<Entry>, k: nat)
    requires k < |chain| && ToCome(chain, known, list, k)
    requires !HasEntry(list, chain[k].ino) || LastFsync(chain, chain[k].ino) > k
    ensures ToCome(chain, known, list, k + 1)
  {
    hide LastFsync, LastCreate, HasEntry, DistinctInos, RightEntry;
    forall ino
      ensures HasEntry(list, ino) <==> Wanted(chain, known, ino) && LastFsync(chain, ino) >= k + 1
    {
      LastRange(chain, ino);
    }
  }

  lemma ToComeMove(chain: seq<Node>, known: set<nat>, list: seq<Entry>, k: nat, e: nat)
    requires k < |chain| && ToCome(chain, known, list, k)
    requires e < |list| && list[e].ino == chain[k].ino && LastFsync(chain, chain[k].ino) == k
    ensures ToCome(chain, known, list[..e] + list[e + 1..], k + 1)
  {
    hide LastFsync, LastCreate, RightEntry;
    var rest := list[..e] + list[e + 1..];
    assert forall i :: 0 <= i < |rest| ==> rest[i] == list[if i < e then i else i + 1];
    forall ino
      ensures HasEntry(rest, ino) <==> Wanted(chain, known, ino) && LastFsync(chain, ino) >= k + 1
    {
      LastRange(chain, ino);
      assert HasEntry(list, ino) <==> Wanted(chain, known, ino) && LastFsync(chain, ino) >= k;
      if HasEntry(list, ino) && ino != chain[k].ino {
        var i :| 0 <= i < |list| && list[i].ino == ino;
        assert rest[if i < e then i else i - 1] == list[i];
      }
    }
  }

  /** In a chain without repeats, an address names its index. */
  lemma AddrNamesIndex(log: Log, start: nat, chain: seq<Node>, i: nat, j: nat)
    requires Complete(log, start, chain) && i < |chain| && j < |chain|
    ensures chain[i].addr == chain[j].addr <==> i == j
  {
    if i < j { CompleteIsDistinct(log, start, chain, i, j); }
    if j < i { CompleteIsDistinct(log, start, chain, j, i); }
  }

  /** At node `k`, the addresses stored in its inode's entry answer whether `k` is the last of its kind. */
  lemma EntryAt(log: Log, start: nat, chain: seq<Node>, e: Entry, k: nat)
    requires Complete(log, start, chain) && k < |chain| && e.ino == chain[k].ino && RightEntry(chain, e)
    ensures e.blkaddr == chain[k].addr <==> LastFsync(chain, e.ino) == k
    ensures e.lastDentry == Some(chain[k].addr) <==> LastCreate(chain, e.ino) == k
  {
    LastRange(chain, e.ino);
    AddrNamesIndex(log, start, chain, LastFsync(chain, e.ino), k);
    if LastCreate(chain, e.ino) >= 0 { AddrNamesIndex(log, start, chain, LastCreate(chain, e.ino), k); }
  }

  /**
    recover_data: the second pass over the same chain.  It has no loop check of
    its own and ends because the first pass did.
  */
  method RecoverData(log: Log, start: nat, list: seq<Entry>, t: Trouble, ghost chain: seq<Node>, ghost known: set<nat>)
    returns (r: Result, inodeList: seq<Entry>, tmpList: seq<Entry>, actions: seq<Action>, half: Option<Half>)
    requires Complete(log, start, chain) && RightList(chain, known, list)
    ensures r.Ok? ==> inodeList == [] && multiset(tmpList) == multiset(list) && half == None
    ensures r.Ok? ==> actions == ReplayOf(chain, known, |chain|)
    ensures r.Ok? <==> Readable(start, chain, t.read) && Replayable(chain, known, t)
    ensures r.Err? ==> Stopped(start, chain, known, t, actions, half)
  {
    hide ToCome, ReplayOf, DoneTo, Readable, Replayable, Stopped, Smooth, Replayed, HalfOf, RightList;
    inodeList, tmpList, actions, half := list, [], [], None;
    var blkaddr := start;
    ghost var k := 0;
    NoneDone(chain, known, list, t);
    if chain != [] { assert Linked(log, start, chain, 0); }
    while true
      invariant 0 <= k <= |chain|
      invariant blkaddr == if k < |chain| then chain[k].addr else NextOf(start, chain)
      invariant ToCome(chain, known, inodeList, k)
      invariant actions == ReplayOf(chain, known, k)
      invariant DoneTo(chain, known, t, k) && half == None
      invariant multiset(inodeList) + multiset(tmpList) == multiset(list)
      decreases |chain| - k
    {
      if k < |chain| { assert Linked(log, start, chain, k); }
      if k + 1 < |chain| { assert Linked(log, start, chain, k + 1); }
      DoneStep(start, chain, known, t, k);
      if blkaddr in t.read {
        StopsAtPage(start, chain, known, t, k);
        return Err(EIO), inodeList, tmpList, actions, None;
      }
      if blkaddr !in log || !log[blkaddr].recoverable {
        NoneToCome(chain, known, inodeList);
        return Ok, inodeList, tmpList, actions, None;
      }
      var node := log[blkaddr];
      inodeList, tmpList, actions, half :=
        ReplayNode(log, start, inodeList, tmpList, actions, node, t, chain, known, k);
      if half != None {
        StopsHalfWay(start, chain, known, t, k);
        return Err(EIO), inodeList, tmpList, actions, half;
      }
      blkaddr, k := node.next, k + 1;
    }
  }

  /** The second pass stops at node `k`: its page cannot be read, or its replay fails with `half` of it done. */
  ghost predicate StopsAt(start: nat, chain: seq<Node>, known: set<nat>, t: Trouble, k: nat, half: Option<Half>)
    requires k <= |chain|
  {
    if half == None then (if k < |chain| then chain[k].addr else NextOf(start, chain)) in t.read
    else
      && k < |chain| && chain[k].addr !in t.read
      && Replayed(chain, known, k) && !Smooth(chain, k, t) && half == Some(HalfOf(chain, k, t))
  }

  /** The nodes before some failing one have been replayed, and perhaps half of that. */
  ghost predicate Stopped(
    start: nat, chain: seq<Node>, known: set<nat>, t: Trouble, acts: seq<Action>, half: Option<Half>)
  {
    exists k :: 0 <= k <= |chain| && acts == ReplayOf(chain, known, k) && StopsAt(start, chain, known, t, k, half)
  }

  lemma StopsAtPage(start: nat, chain: seq<Node>, known: set<nat>, t: Trouble, k: nat)
    requires k <= |chain| && (if k < |chain| then chain[k].addr else NextOf(start, chain)) in t.read
    ensures Stopped(start, chain, known, t, ReplayOf(chain, known, k), None)
  {
    assert StopsAt(start, chain, known, t, k, None);
  }

  lemma StopsHalfWay(start: nat, chain: seq<Node>, known: set<nat>, t: Trouble, k: nat)
    requires k < |chain| && chain[k].addr !in t.read && Replayed(chain, known, k) && !Smooth(chain, k, t)
    ensures Stopped(start, chain, known, t, ReplayOf(chain, known, k), Some(HalfOf(chain, k, t)))
  {
    assert StopsAt(start, chain, known, t, k, Some(HalfOf(chain, k, t)));
  }

  /** The first `k` nodes can be read and replayed. */
  ghost predicate DoneTo(chain: seq<Node>, known: set<nat>, t: Trouble, k: nat) {
    forall i :: 0 <= i < k && i < |chain| ==>
      chain[i].addr !in t.read && (Replayed(chain, known, i) ==> Smooth(chain, i, t))
  }

  lemma NoneDone(chain: seq<Node>, known: set<nat>, list: seq<Entry>, t: Trouble)
    requires RightList(chain, known, list)
    ensures ToCome(chain, known, list, 0) && DoneTo(chain, known, t, 0) && ReplayOf(chain, known, 0) == []
  {
    hide LastFsync, LastCreate, RightEntry, DistinctInos;
  }

  lemma DoneStep(start: nat, chain: seq<Node>, known: set<nat>, t: Trouble, k: nat)
    requires DoneTo(chain, known, t, k) && k <= |chain|
    ensures k < |chain| && chain[k].addr !in t.read && (Replayed(chain, known, k) ==> Smooth(chain, k, t)) ==>
              DoneTo(chain, known, t, k + 1)
    ensures k < |chain| && (chain[k].addr in t.read || (Replayed(chain, known, k) && !Smooth(chain, k, t))) ==>
              !Readable(start, chain, t.read) || !Replayable(chain, known, t)
    ensures k == |chain| && NextOf(start, chain) !in t.read ==>
              Readable(start, chain, t.read) && Replayable(chain, known, t)
    ensures k == |chain| && NextOf(start, chain) in t.read ==> !Readable(start, chain, t.read)
  {
    hide Replayed, Smooth;
  }

  lemma NoneToCome(chain: seq<Node>, known: set<nat>, list: seq<Entry>)
    requires ToCome(chain, known, list, |chain|)
    ensures list == []
  {
    if list != [] {
      LastRange(chain, list[0].ino);
      assert HasEntry(list, list[0].ino);
    }
  }

  /** What the second pass does with node `k`. */
  method ReplayNode(log: Log, start: nat, list: seq<Entry>, tmp: seq<Entry>, acts: seq<Action>, node: Node, t: Trouble,
                    ghost chain: seq<Node>, ghost known: set<nat>, ghost k: nat)
    returns (inodeList: seq<Entry>, tmpList: seq<Entry>, actions: seq<Action>, half: Option<Half>)
    requires Complete(log, start, chain) && k < |chain| && node == chain[k]
    requires ToCome(chain, known, list, k) && acts == ReplayOf(chain, known, k)
    ensures half == None ==>
              && ToCome(chain, known, inodeList, k + 1) && actions == ReplayOf(chain, known, k + 1)
              && (Replayed(chain, known, k) ==> Smooth(chain, k, t))
    ensures half != None ==>
              && actions == acts && Replayed(chain, known, k) && !Smooth(chain, k, t)
              && half == Some(HalfOf(chain, k, t))
    ensures multiset(inodeList) + multiset(tmpList) == multiset(list) + multiset(tmp)
  {
    inodeList, tmpList, actions, half := list, tmp, acts, None;
    var e := FindEntry(list, node.ino);
    LastRange(chain, node.ino);
    if e < 0 {
      ToComeStep(chain, known, list, k);
      return;
    }
    EntryAt(log, start, chain, list[e], k);
    assert HasEntry(list, node.ino);
    if node.isInode && node.addr in t.inode {
      half := Some(Half(node, false, false));
      return;
    }
    var dentry := list[e].lastDentry == Some(node.addr);
    if dentry && node.addr in t.dentry {
      half := Some(Half(node, node.isInode, false));
      return;
    }
    if node.addr in t.data {
      half := Some(Half(node, node.isInode, dentry));
      return;
    }
    actions := actions + [Replay(node, dentry)];
    if list[e].blkaddr == node.addr {
      ToComeMove(chain, known, list, k, e);
      inodeList, tmpList := list[..e] + list[e + 1..], tmp + [list[e]];
      assert list == list[..e] + [list[e]] + list[e + 1..];
    } else {
      ToComeStep(chain, known, list, k);
    }
  }

  // ----------------------------------------------------------- the theorems

  /** The nodes of one inode among the first `k` of the chain. */
  function NodesOf(chain: seq<Node>, ino: nat, k: nat): seq<Node>
    requires k <= |chain|
  {
    if k == 0 then [] else NodesOf(chain, ino, k - 1) + (if chain[k - 1].ino == ino then [chain[k - 1]] else [])
  }

  /** What a sequence of actions applies to one inode, and which dentries it restores for it. */
  function Applied(acts: seq<Action>, ino: nat): seq<Node> {
    if acts == [] then []
    else
      var n := |acts| - 1;
      Applied(acts[..n], ino) + (if acts[n].node.ino == ino then [acts[n].node] else [])
  }

  function Dentries(acts: seq<Action>, ino: nat): seq<Node> {
    if acts == [] then []
    else
      var n := |acts| - 1;
      Dentries(acts[..n], ino) + (if acts[n].node.ino == ino && acts[n].dentry then [acts[n].node] else [])
  }

  /** How many nodes of the chain come up to and including the last fsync-marked one of `ino`. */
  function FsyncEnd(chain: seq<Node>, ino: nat): (n: nat)
    ensures n <= |chain|
  {
    LastRange(chain, ino);
    LastFsync(chain, ino) + 1
  }

  lemma AppliedSnoc(acts: seq<Action>, a: Action, ino: nat)
    ensures Applied(acts + [a], ino) == Applied(acts, ino) + (if a.node.ino == ino then [a.node] else [])
    ensures Dentries(acts + [a], ino) == Dentries(acts, ino) + (if a.node.ino == ino && a.dentry then [a.node] else [])
  {
    assert (acts + [a])[..|acts|] == acts;
  }

  /** What replaying one more node adds for one inode. */
  lemma ReplayStep(chain: seq<Node>, known: set<nat>, ino: nat, k: nat)
    requires k < |chain|
    ensures var before, now := ReplayOf(chain, known, k), ReplayOf(chain, known, k + 1);
            var mine := Replayed(chain, known, k) && chain[k].ino == ino;
            && Applied(now, ino) == Applied(before, ino) + (if mine then [chain[k]] else [])
            && Dentries(now, ino) == Dentries(before, ino) +
               (if mine && k == LastCreate(chain, ino) then [chain[k]] else [])
  {
    hide LastFsync, LastCreate, Applied, Dentries;
    var node, before := chain[k], ReplayOf(chain, known, k);
    if Replayed(chain, known, k) {
      var act := Replay(node, k == LastCreate(chain, node.ino));
      assert ReplayOf(chain, known, k + 1) == before + [act];
      AppliedSnoc(before, act, ino);
    } else {
      assert ReplayOf(chain, known, k + 1) == before;
    }
  }

  lemma NothingReplayed(chain: seq<Node>, known: set<nat>, ino: nat)
    ensures Applied(ReplayOf(chain, known, 0), ino) == [] && Dentries(ReplayOf(chain, known, 0), ino) == []
  {
  }

  lemma {:induction false} AppliedPrefix(chain: seq<Node>, known: set<nat>, ino: nat, k: nat)
    requires k <= |chain|
    ensures Applied(ReplayOf(chain, known, k), ino)
         == if !Wanted(chain, known, ino) then []
            else NodesOf(chain, ino, if k < FsyncEnd(chain, ino) then k else FsyncEnd(chain, ino))
  {
    hide LastFsync, LastCreate, Applied, Dentries, ReplayOf;
    if k > 0 {
      AppliedPrefix(chain, known, ino, k - 1);
      ReplayStep(chain, known, ino, k - 1);
    } else {
      NothingReplayed(chain, known, ino);
    }
  }

  lemma {:induction false} DentriesPrefix(chain: seq<Node>, known: set<nat>, ino: nat, k: nat)
    requires k <= |chain|
    ensures var c := LastCreate(chain, ino);
            Dentries(ReplayOf(chain, known, k), ino) ==
            if Wanted(chain, known, ino) && 0 <= c < k then [chain[c]] else []
  {
    LastRange(chain, ino);
    hide LastFsync, LastCreate, Applied, Dentries, ReplayOf;
    if k > 0 {
      DentriesPrefix(chain, known, ino, k - 1);
      ReplayStep(chain, known, ino, k - 1);
    } else {
      NothingReplayed(chain, known, ino);
    }
  }

  /**
    Each wanted inode ends as the replay of all its nodes up to and including
    its last fsync-marked one, in log order, and nothing later; an inode that is
    not wanted is not touched.  Its dentry is restored from its last inode(DF).
  */
  lemma ReplayPerInode(chain: seq<Node>, known: set<nat>, ino: nat)
    ensures LastCreate(chain, ino) < |chain|
    ensures forall n :: n in Dentries(ReplayOf(chain, known, |chain|), ino) ==> n.fsync && n.isInode && n.dent
    ensures Applied(ReplayOf(chain, known, |chain|), ino)
         == if Wanted(chain, known, ino) then NodesOf(chain, ino, FsyncEnd(chain, ino)) else []
    ensures Dentries(ReplayOf(chain, known, |chain|), ino)
         == if Wanted(chain, known, ino) && LastCreate(chain, ino) >= 0 then [chain[LastCreate(chain, ino)]] else []
  {
    LastRange(chain, ino);
    AppliedPrefix(chain, known, ino, |chain|);
    DentriesPrefix(chain, known, ino, |chain|);
  }

  lemma {:induction false} NothingToReplay(chain: seq<Node>, known: set<nat>, k: nat)
    requires k <= |chain| && forall ino :: !Wanted(chain, known, ino)
    ensures ReplayOf(chain, known, k) == []
  {
    if k > 0 { NothingToReplay(chain, known, k - 1); }
  }

  /**
    f2fs_recover_fsync_data: both passes, and the check that no inode is left
    behind.  Either pass may fail; the second runs only if there is something to
    recover, and on failure leaves the replay of the nodes before the failing one
    and perhaps `half` of that.
  */
  method RecoverFsyncData(log: Log, start: nat, known: set<nat>, limit: nat, faults: set<nat>, later: Trouble)
    returns (r: Result, actions: seq<Action>, half: Option<Half>, ghost chain: seq<Node>)
    ensures r.Ok? ==> Healthy(log, start, chain, limit, faults) && actions == ReplayOf(chain, known, |chain|)
    ensures r.Ok? ==> half == None && (NothingWanted(chain, known) || Passable(start, chain, known, later))
    ensures r.Ok? ==> forall ino ::
              Applied(actions, ino) ==
              if Wanted(chain, known, ino) then NodesOf(chain, ino, FsyncEnd(chain, ino)) else []
    ensures r.Err? ==> forall c :: !Healthy(log, start, c, limit, faults) || !Passable(start, c, known, later)
    ensures r.Err? ==> (actions == [] && half == None) || Stopped(start, chain, known, later, actions, half)
  {
    var list;
    actions, half := [], None;
    r, list, chain := FindFsyncDnodes(log, start, known, limit, faults);
    if r.Err? { return; }
    if list == [] {
      forall ino
        ensures !Wanted(chain, known, ino)
      {
        assert !HasEntry(list, ino);
      }
      NothingToReplay(chain, known, |chain|);
      return;
    }
    var inodeList, tmpList;
    r, inodeList, tmpList, actions, half := RecoverData(log, start, list, later, chain, known);
    if r.Ok? {
      assert inodeList == [];     // f2fs_bug_on(sbi, !list_empty(&inode_list))
      forall ino { ReplayPerInode(chain, known, ino); }
    } else {
      forall c
        ensures !Healthy(log, start, c, limit, faults) || !Passable(start, c, known, later)
      {
        if Healthy(log, start, c, limit, faults) { SameChain(log, start, chain, c); }
      }
    }
  }

  ghost predicate NothingWanted(chain: seq<Node>, known: set<nat>) { forall ino :: !Wanted(chain, known, ino) }

  /** Nothing fails in the second pass. */
  ghost predicate Passable(start: nat, chain: seq<Node>, known: set<nat>, t: Trouble) {
    Readable(start, chain, t.read) && Replayable(chain, known, t)
  }

  lemma SameChain(log: Log, start: nat, c1: seq<Node>, c2: seq<Node>)
    requires Complete(log, start, c1) && Complete(log, start, c2)
    ensures c1 == c2
  {
    forall k | 0 <= k < |c1| ensures k < |c2| && c1[k] == c2[k] { WalkUnique(log, start, c1, c2, k); }
    forall k | 0 <= k < |c2| ensures k < |c1| && c2[k] == c1[k] { WalkUnique(log, start, c2, c1, k); }
    if c1 != [] { WalkUnique(log, start, c1, c2, |c1| - 1); }
    if c2 != [] { WalkUnique(log, start, c2, c1, |c2| - 1); }
  }
}
