/**
  The decompression context of one compressed cluster (struct
  decompress_io_ctx in f2fs.h; compress.c, data.c), shared by the submitter and
  any number of bio completions.

  Each step below is one atomic access to the shared counters.  A page that is
  in a bio holds a reference; one more reference stands for I/O completion.
*/
module Decompress {

  datatype Page =
    | Waiting      // not yet reached by the submitter
    | Cached       // found in the compressed-page cache: counted, never in a bio
    | InBio        // in a bio, holds a reference, not yet counted
    | Counted      // read or failed, still holds its reference
    | Released     // reference dropped

  /** Who finishes the cluster, and how far. */
  datatype Finish =
    | Pending            // remaining_pages has not reached 0
    | Decompressing      // f2fs_decompress_cluster runs
    | Verifying          // fs-verity work is queued
    | Ending             // __f2fs_decompress_end_io is about to unlock the pages
    | Unlocked           // pages are unlocked, the completion reference is still held
    | Finished

  /** The submitter is at page `next`, or gave up there because no bio could be allocated. */
  datatype Submitter = At(next: nat) | GaveUp(next: nat)

  datatype State = State(
    pages: seq<Page>,
    submitter: Submitter,
    finish: Finish,
    remaining: int,        // dic->remaining_pages
    refcnt: int,           // dic->refcnt
    failed: bool,          // dic->failed
    finishes: nat,         // how often the page cache pages were unlocked
    frees: nat             // how often f2fs_free_dic ran
  )

  /** f2fs_alloc_dic for a cluster of `n` compressed pages. */
  ghost predicate Init(s: State, n: nat) {
    && n >= 1 && |s.pages| == n
    && (forall i :: 0 <= i < n ==> s.pages[i] == Waiting)
    && s.submitter == At(0) && s.finish == Pending
    && s.remaining == n && s.refcnt == 1 && !s.failed && s.finishes == 0 && s.frees == 0
  }

  lemma Starts(n: nat) returns (s: State)
    requires n >= 1
    ensures Init(s, n)
  {
    s := State(seq(n, _ => Waiting), At(0), Pending, n, 1, false, 0, 0);
  }

  /** atomic_dec_and_test(&dic->remaining_pages), which starts decompression at 0. */
  function CountPage(s: State): State {
    s.(remaining := s.remaining - 1,
       finish := if s.remaining == 1 then Decompressing else s.finish)
  }

  /** f2fs_put_dic. */
  function Put(s: State): State {
    s.(refcnt := s.refcnt - 1,
       frees := if s.refcnt == 1 then s.frees + 1 else s.frees)
  }

  function SetPage(s: State, i: nat, p: Page): State
    requires i < |s.pages|
  {
    s.(pages := s.pages[i := p])
  }

  // --------------------------------------------------------------- the steps

  /** f2fs_load_compressed_page hits; the loop ends when this was the last page to wait for. */
  ghost predicate SubmitCached(s: State, s': State, i: nat) {
    && s.submitter == At(i) && i < |s.pages|
    && var t := CountPage(SetPage(s, i, Cached));
       s' == t.(submitter := At(if t.remaining == 0 then |s.pages| else i + 1))
  }

  /** The page joins a bio, which is submitted only later. */
  ghost predicate SubmitBio(s: State, s': State, i: nat) {
    && s.submitter == At(i) && i < |s.pages|
    && s' == SetPage(s, i, InBio).(refcnt := s.refcnt + 1, submitter := At(i + 1))
  }

  /** No bio: the submitter itself ends the cluster with an error and returns. */
  ghost predicate SubmitFails(s: State, s': State, i: nat) {
    && s.submitter == At(i) && i < |s.pages|
    && s' == s.(submitter := GaveUp(i), finish := Ending)
  }

  /** f2fs_end_read_compressed_page, for a page read or failed. */
  ghost predicate EndRead(s: State, s': State, i: nat, failed: bool) {
    && i < |s.pages| && s.pages[i] == InBio
    && s' == CountPage(SetPage(s, i, Counted).(failed := s.failed || failed))
  }

  /** f2fs_put_page_dic, after the bio is finished with the page. */
  ghost predicate PutPage(s: State, s': State, i: nat) {
    && i < |s.pages| && s.pages[i] == Counted
    && s' == Put(SetPage(s, i, Released))
  }

  /** f2fs_decompress_cluster returns `ok`; on success verity may still have to run. */
  ghost predicate DecompressCluster(s: State, s': State, ok: bool, verity: bool) {
    && s.finish == Decompressing && (s.failed ==> !ok)
    && s' == s.(finish := if ok && verity then Verifying else Ending)
  }

  ghost predicate VerifyCluster(s: State, s': State) {
    s.finish == Verifying && s' == s.(finish := Ending)
  }

  /** __f2fs_decompress_end_io: unlock the cluster's pages, then drop the completion reference. */
  ghost predicate UnlockPages(s: State, s': State) {
    s.finish == Ending && s' == s.(finish := Unlocked, finishes := s.finishes + 1)
  }

  ghost predicate DropCompletion(s: State, s': State) {
    s.finish == Unlocked && s' == Put(s).(finish := Finished)
  }

  ghost predicate Next(s: State, s': State) {
    || (exists i :: SubmitCached(s, s', i))
    || (exists i :: SubmitBio(s, s', i))
    || (exists i :: SubmitFails(s, s', i))
    || (exists i, failed :: EndRead(s, s', i, failed))
    || (exists i :: PutPage(s, s', i))
    || (exists ok, verity :: DecompressCluster(s, s', ok, verity))
    || VerifyCluster(s, s') || UnlockPages(s, s') || DropCompletion(s, s')
  }

  // -------------------------------------------------------------- counting

  function One(b: bool): nat { if b then 1 else 0 }

  predicate IsCounted(p: Page) { p.Cached? || p.Counted? || p.Released? }

  predicate HoldsRef(p: Page) { p.InBio? || p.Counted? }

  function Uncounted(ps: seq<Page>): nat {
    if ps == [] then 0 else One(!IsCounted(ps[0])) + Uncounted(ps[1..])
  }

  function Refs(ps: seq<Page>): nat {
    if ps == [] then 0 else One(HoldsRef(ps[0])) + Refs(ps[1..])
  }

  lemma {:induction false} CountUpdate(ps: seq<Page>, i: nat, p: Page)
    requires i < |ps|
    ensures Uncounted(ps[i := p]) == Uncounted(ps) - One(!IsCounted(ps[i])) + One(!IsCounted(p))
    ensures Refs(ps[i := p]) == Refs(ps) - One(HoldsRef(ps[i])) + One(HoldsRef(p))
    ensures Uncounted(ps) >= One(!IsCounted(ps[i])) && Refs(ps) >= One(HoldsRef(ps[i]))
  {
    if i > 0 {
      CountUpdate(ps[1..], i - 1, p);
      assert ps[i := p][1..] == ps[1..][i - 1 := p];
    } else {
      assert ps[i := p][1..] == ps[1..];
    }
  }

  lemma {:induction false} CountInit(ps: seq<Page>)
    requires forall i :: 0 <= i < |ps| ==> ps[i] == Waiting
    ensures Uncounted(ps) == |ps| && Refs(ps) == 0
  {
    if ps != [] { CountInit(ps[1..]); }
  }

  // ---------------------------------------------------------- the invariant

  /** Exactly the pages the submitter has not reached are waiting. */
  ghost predicate SubmitterInv(s: State) {
    && s.submitter.next <= |s.pages|
    && (forall i :: 0 <= i < |s.pages| ==> (s.pages[i].Waiting? <==> i >= s.submitter.next))
    && (s.submitter.GaveUp? ==> s.submitter.next < |s.pages|)
  }

  ghost predicate FinishInv(s: State) {
    && (s.finish.Pending? ==> s.submitter.At? && s.remaining > 0)
    && (s.finish.Decompressing? || s.finish.Verifying? ==> s.submitter.At?)
    && (s.submitter.At? && !s.finish.Pending? ==> s.remaining == 0)
    && s.finishes == One(s.finish.Unlocked? || s.finish.Finished?)
  }

  ghost predicate Inv(s: State) {
    && |s.pages| >= 1 && SubmitterInv(s) && FinishInv(s)
    && s.remaining == Uncounted(s.pages)
    && s.refcnt == Refs(s.pages) + One(!s.finish.Finished?)
    && s.frees == One(s.refcnt == 0)
  }

  /** While some page waits, the count of pages to come is not exhausted. */
  lemma WaitingIsUncounted(s: State, i: nat)
    requires i < |s.pages| && !IsCounted(s.pages[i])
    ensures Uncounted(s.pages) >= 1
  {
    CountUpdate(s.pages, i, s.pages[i]);
  }

  lemma InvSubmit(s: State, s': State, i: nat)
    requires Inv(s) && (SubmitCached(s, s', i) || SubmitBio(s, s', i) || SubmitFails(s, s', i))
    ensures Inv(s') && s.frees == 0 && |s'.pages| == |s.pages|
  {
    WaitingIsUncounted(s, i);
    assert s.finish.Pending?;
    if SubmitCached(s, s', i) {
      CountUpdate(s.pages, i, Cached);
      if i + 1 < |s.pages| {
        assert s'.pages[i + 1] == s.pages[i + 1];
        WaitingIsUncounted(s', i + 1);
      }
    } else if SubmitBio(s, s', i) {
      CountUpdate(s.pages, i, InBio);
    }
  }

  lemma InvPage(s: State, s': State, i: nat, failed: bool)
    requires Inv(s) && (EndRead(s, s', i, failed) || PutPage(s, s', i))
    ensures Inv(s') && s.frees == 0 && |s'.pages| == |s.pages|
  {
    CountUpdate(s.pages, i, if s.pages[i].InBio? then Counted else Released);
    if EndRead(s, s', i, failed) && s.submitter.GaveUp? {
      assert s'.pages[s.submitter.next] == s.pages[s.submitter.next];
      WaitingIsUncounted(s', s.submitter.next);
    }
  }

  lemma InvFinish(s: State, s': State)
    requires Inv(s)
    requires (exists ok, verity :: DecompressCluster(s, s', ok, verity)) || VerifyCluster(s, s')
             || UnlockPages(s, s') || DropCompletion(s, s')
    ensures Inv(s') && s.frees == 0 && |s'.pages| == |s.pages|
  {
  }

  /** Every step keeps the invariant, and every step is taken on a context that has not been freed. */
  lemma InvNext(s: State, s': State)
    requires Inv(s) && Next(s, s')
    ensures Inv(s') && s.frees == 0 && |s'.pages| == |s.pages|
  {
    if i: nat :| SubmitCached(s, s', i) || SubmitBio(s, s', i) || SubmitFails(s, s', i) {
      InvSubmit(s, s', i);
    } else if i, failed :| EndRead(s, s', i, failed) {
      InvPage(s, s', i, failed);
    } else if i :| PutPage(s, s', i) {
      InvPage(s, s', i, false);
    } else {
      InvFinish(s, s');
    }
  }

  // ------------------------------------------------------------ termination

  function PageWork(p: Page): nat {
    match p case Waiting => 3 case InBio => 2 case Counted => 1 case _ => 0
  }

  function Work(ps: seq<Page>): nat { if ps == [] then 0 else PageWork(ps[0]) + Work(ps[1..]) }

  function FinishWork(f: Finish): nat {
    match f
    case Pending => 5
    case Decompressing => 4
    case Verifying => 3
    case Ending => 2
    case Unlocked => 1
    case Finished => 0
  }

  function Measure(s: State): nat { Work(s.pages) + FinishWork(s.finish) }

  lemma {:induction false} WorkUpdate(ps: seq<Page>, i: nat, p: Page)
    requires i < |ps|
    ensures Work(ps[i := p]) == Work(ps) - PageWork(ps[i]) + PageWork(p)
  {
    if i > 0 {
      WorkUpdate(ps[1..], i - 1, p);
      assert ps[i := p][1..] == ps[1..][i - 1 := p];
    } else {
      assert ps[i := p][1..] == ps[1..];
    }
  }

  lemma DecreasesSubmit(s: State, s': State, i: nat)
    requires Inv(s) && (SubmitCached(s, s', i) || SubmitBio(s, s', i) || SubmitFails(s, s', i))
    ensures Measure(s') < Measure(s)
  {
    WaitingIsUncounted(s, i);
    WorkUpdate(s.pages, i, s'.pages[i]);
    assert s'.pages == s.pages[i := s'.pages[i]];
  }

  lemma DecreasesPage(s: State, s': State, i: nat, failed: bool)
    requires Inv(s) && (EndRead(s, s', i, failed) || PutPage(s, s', i))
    ensures Measure(s') < Measure(s)
  {
    InvPage(s, s', i, failed);
    WorkUpdate(s.pages, i, s'.pages[i]);
    assert s'.pages == s.pages[i := s'.pages[i]];
    if s.submitter.GaveUp? { WaitingIsUncounted(s', s.submitter.next); }
  }

  lemma Decreases(s: State, s': State)
    requires Inv(s) && Next(s, s')
    ensures Measure(s') < Measure(s)
  {
    if i: nat :| SubmitCached(s, s', i) || SubmitBio(s, s', i) || SubmitFails(s, s', i) {
      DecreasesSubmit(s, s', i);
    } else if i, failed :| EndRead(s, s', i, failed) {
      DecreasesPage(s, s', i, failed);
    } else if i :| PutPage(s, s', i) {
      DecreasesPage(s, s', i, false);
    }
  }

  ghost predicate Stuck(s: State) { forall s' :: !Next(s, s') }

  /** Until the cluster is finished and the context freed, some step can be taken. */
  lemma CanStep(s: State) returns (t: State)
    requires Inv(s) && !(s.finishes == 1 && s.frees == 1)
    ensures Next(s, t)
  {
    if s.submitter.At? && s.submitter.next < |s.pages| {
      t := s.(submitter := GaveUp(s.submitter.next), finish := Ending);
      assert SubmitFails(s, t, s.submitter.next);
    } else if i :| 0 <= i < |s.pages| && s.pages[i].InBio? {
      t := CountPage(SetPage(s, i, Counted).(failed := s.failed || true));
      assert EndRead(s, t, i, true);
    } else if i :| 0 <= i < |s.pages| && s.pages[i].Counted? {
      t := Put(SetPage(s, i, Released));
      assert PutPage(s, t, i);
    } else {
      NoRefs(s.pages);
      if s.submitter.At? { NoUncounted(s.pages); }
      if s.finish.Decompressing? {
        t := s.(finish := Ending);
        assert DecompressCluster(s, t, false, false);
      } else if s.finish.Verifying? {
        t := s.(finish := Ending);
      } else if s.finish.Ending? {
        t := s.(finish := Unlocked, finishes := s.finishes + 1);
      } else {
        t := Put(s).(finish := Finished);
      }
    }
  }

  lemma {:induction false} NoRefs(ps: seq<Page>)
    requires forall i :: 0 <= i < |ps| ==> !HoldsRef(ps[i])
    ensures Refs(ps) == 0
  {
    if ps != [] { NoRefs(ps[1..]); }
  }

  lemma {:induction false} NoUncounted(ps: seq<Page>)
    requires forall i :: 0 <= i < |ps| ==> IsCounted(ps[i])
    ensures Uncounted(ps) == 0
  {
    if ps != [] { NoUncounted(ps[1..]); }
  }

  // ----------------------------------------------------------- the theorems

  ghost predicate Run(run: seq<State>, n: nat) {
    && |run| > 0 && Init(run[0], n)
    && forall k :: 0 <= k < |run| - 1 ==> Next(run[k], run[k + 1])
  }

  lemma InvInit(s: State, n: nat)
    requires Init(s, n)
    ensures Inv(s) && |s.pages| == n && Measure(s) == 3 * n + 5
  {
    CountInit(s.pages);
    WorkInit(s.pages);
  }

  lemma {:induction false} RunInv(run: seq<State>, n: nat, k: nat)
    requires Run(run, n) && k < |run|
    ensures Inv(run[k]) && |run[k].pages| == n
    ensures Measure(run[k]) + k <= 3 * n + 5
  {
    hide Init, Inv, Next, Measure;
    if k == 0 {
      InvInit(run[0], n);
    } else {
      RunInv(run, n, k - 1);
      assert Next(run[k - 1], run[k - 1 + 1]);
      InvNext(run[k - 1], run[k]);
      Decreases(run[k - 1], run[k]);
    }
  }

  lemma {:induction false} WorkInit(ps: seq<Page>)
    requires forall i :: 0 <= i < |ps| ==> ps[i] == Waiting
    ensures Work(ps) == 3 * |ps|
  {
    if ps != [] { WorkInit(ps[1..]); }
  }

  /** In every interleaving, nobody touches the context after it is freed. */
  lemma NoUseAfterFree(run: seq<State>, n: nat, k: nat)
    requires Run(run, n) && k + 1 < |run|
    ensures run[k].frees == 0
  {
    RunInv(run, n, k);
    assert Next(run[k], run[k + 1]);
    InvNext(run[k], run[k + 1]);
  }

  /**
    The context is freed at most once, and only when no page is in a bio any
    more and the cluster has been finished; it is finished at most once.
  */
  lemma FreedLastAndOnce(run: seq<State>, n: nat, k: nat)
    requires Run(run, n) && k < |run|
    ensures run[k].finishes <= 1 && run[k].frees <= 1
    ensures run[k].frees == 1 ==>
              run[k].finishes == 1 && forall i :: 0 <= i < |run[k].pages| ==> !HoldsRef(run[k].pages[i])
  {
    RunInv(run, n, k);
    if run[k].frees == 1 {
      forall i | 0 <= i < |run[k].pages|
        ensures !HoldsRef(run[k].pages[i])
      {
        CountUpdate(run[k].pages, i, run[k].pages[i]);
      }
    }
  }

  /** Every interleaving ends, after at most 3n + 5 steps, with the cluster finished once and the context freed once. */
  lemma ExactlyOnce(run: seq<State>, n: nat)
    requires Run(run, n)
    ensures |run| <= 3 * n + 6
    ensures Stuck(run[|run| - 1]) ==>
              run[|run| - 1].finishes == 1 && run[|run| - 1].frees == 1
  {
    RunInv(run, n, |run| - 1);
    var last := run[|run| - 1];
    if Stuck(last) && !(last.finishes == 1 && last.frees == 1) {
      var t := CanStep(last);
    }
  }

  /** The step ends a page read that failed. */
  ghost predicate BadRead(s: State, s': State) { exists i: nat :: EndRead(s, s', i, true) }

  ghost predicate BadReadAt(run: seq<State>, j: nat)
    requires j + 1 < |run|
  {
    BadRead(run[j], run[j + 1])
  }

  /** Some page read before state `k` of the run failed. */
  ghost predicate ReadFailed(run: seq<State>, k: nat)
    requires k < |run|
  {
    exists j: nat :: j < k && BadReadAt(run, j)
  }

  lemma FailedStep(s: State, s': State)
    requires Next(s, s')
    ensures s'.failed <==> s.failed || BadRead(s, s')
  {
    if i, failed :| EndRead(s, s', i, failed) {
      assert EndRead(s, s', i, s'.failed);
    }
  }

  /** The cluster is marked as failed if and only if a page read of it has failed. */
  lemma {:induction false} FailedIff(run: seq<State>, n: nat, k: nat)
    requires Run(run, n) && k < |run|
    ensures run[k].failed <==> ReadFailed(run, k)
  {
    hide Next, BadRead;
    if k > 0 {
      FailedIff(run, n, k - 1);
      assert Next(run[k - 1], run[k - 1 + 1]);
      FailedStep(run[k - 1], run[k]);
      assert BadReadAt(run, k - 1) <==> BadRead(run[k - 1], run[k]);
      assert ReadFailed(run, k) <==> ReadFailed(run, k - 1) || BadReadAt(run, k - 1);
    }
  }

  /** A cluster whose turn it is can be decompressed with success exactly if no page read of it has failed. */
  lemma CanDecompress(run: seq<State>, n: nat, k: nat, verity: bool)
    requires Run(run, n) && k < |run| && run[k].finish == Decompressing
    ensures ReadFailed(run, k) <==> forall t :: !DecompressCluster(run[k], t, true, verity)
  {
    FailedIff(run, n, k);
    if !run[k].failed {
      var t := run[k].(finish := if verity then Verifying else Ending);
      assert DecompressCluster(run[k], t, true, verity);
    }
  }

  /** A step on the way to a cluster decompressed with success. */
  ghost predicate Smooth(s: State, s': State, verity: bool) {
    || (exists i :: SubmitCached(s, s', i))
    || (exists i :: SubmitBio(s, s', i))
    || (exists i :: EndRead(s, s', i, false))
    || (exists i :: PutPage(s, s', i))
    || DecompressCluster(s, s', true, verity)
    || VerifyCluster(s, s') || UnlockPages(s, s') || DropCompletion(s, s')
  }

  ghost predicate Hopeful(s: State) { Inv(s) && !s.failed && s.submitter.At? }

  /** Until the cluster is finished and the context freed there is such a step, whichever way each page is had. */
  lemma CanStepSmooth(s: State, cached: bool, verity: bool) returns (t: State)
    requires Hopeful(s) && !(s.finishes == 1 && s.frees == 1)
    ensures Smooth(s, t, verity) && !t.failed && t.submitter.At?
    ensures s.submitter.next < |s.pages| ==>
              t.pages[s.submitter.next] == if cached then Cached else InBio
  {
    if s.submitter.next < |s.pages| {
      var i := s.submitter.next;
      if cached {
        var u := CountPage(SetPage(s, i, Cached));
        t := u.(submitter := At(if u.remaining == 0 then |s.pages| else i + 1));
        assert SubmitCached(s, t, i);
      } else {
        t := SetPage(s, i, InBio).(refcnt := s.refcnt + 1, submitter := At(i + 1));
        assert SubmitBio(s, t, i);
      }
    } else if i :| 0 <= i < |s.pages| && s.pages[i].InBio? {
      t := CountPage(SetPage(s, i, Counted));
      assert EndRead(s, t, i, false);
    } else if i :| 0 <= i < |s.pages| && s.pages[i].Counted? {
      t := Put(SetPage(s, i, Released));
      assert PutPage(s, t, i);
    } else {
      NoRefs(s.pages);
      NoUncounted(s.pages);
      if s.finish.Decompressing? {
        t := s.(finish := if verity then Verifying else Ending);
        assert DecompressCluster(s, t, true, verity);
      } else if s.finish.Verifying? {
        t := s.(finish := Ending);
      } else if s.finish.Ending? {
        t := s.(finish := Unlocked, finishes := s.finishes + 1);
      } else {
        t := Put(s).(finish := Finished);
      }
    }
  }

  lemma SmoothIsNext(s: State, s': State, verity: bool)
    requires Smooth(s, s', verity)
    ensures Next(s, s')
  {
  }

  /** From every such state the cluster can be finished and the context freed by such steps alone. */
  lemma {:induction false} Succeeds(s: State, cached: nat -> bool, verity: bool) returns (path: seq<State>)
    requires Hopeful(s)
    ensures |path| > 0 && path[0] == s && path[|path| - 1].finishes == 1 && path[|path| - 1].frees == 1
    ensures forall k :: 0 <= k < |path| - 1 ==> Smooth(path[k], path[k + 1], verity)
    decreases Measure(s)
  {
    if s.finishes == 1 && s.frees == 1 {
      path := [s];
    } else {
      var t := CanStepSmooth(s, cached(s.submitter.next), verity);
      SmoothIsNext(s, t, verity);
      InvNext(s, t);
      Decreases(s, t);
      hide Smooth, Inv, Measure;
      var rest := Succeeds(t, cached, verity);
      path := [s] + rest;
    }
  }

  /** Pages are decompressed only when none of them failed to be read and none is outstanding. */
  lemma DecompressSound(s: State, s': State, verity: bool)
    requires Inv(s) && DecompressCluster(s, s', true, verity)
    ensures !s.failed && forall i :: 0 <= i < |s.pages| ==> IsCounted(s.pages[i])
  {
    forall i | 0 <= i < |s.pages|
      ensures IsCounted(s.pages[i])
    {
      if !IsCounted(s.pages[i]) { WaitingIsUncounted(s, i); }
    }
  }
}
