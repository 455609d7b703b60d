/**
  The G1 region-to-space mapper as an object.

  One class stands for the two strategy classes of the source; its
  `strategy` tag is chosen once, by the factory rule, and each public
  operation dispatches on it. The commit bitmap and the per-page reference
  counts are arrays updated in place.

  The collaborators the mapper calls (the page-based virtual space that
  commits and uncommits pages, the NUMA placement advisor, the pretouch
  executor and the commit listener) are not modelled; every call to them is
  appended to a ghost log, one log per collaborator, and the pages the
  storage holds committed are tracked in the ghost set `committedPages`.
  Whether a storage commit returned zero-filled memory is left unconstrained.
*/
module G1Mapper {
  import opened G1Commit

  /** mtJavaHeap or any other memory type (auxiliary GC data). */
  datatype MemoryType = JavaHeap | Auxiliary

  /** A call into the page-based virtual space. */
  datatype StorageCall =
    | Commit(start: nat, count: nat, zeroFilled: bool)
    | Uncommit(start: nat, count: nat)

  /** request_memory_on_node(page_start(page), bytes, region). */
  datatype NumaRequest = NumaRequest(page: nat, bytes: nat, region: nat)

  /** A pretouch request over `count` pages from `start`. */
  datatype PageRange = PageRange(start: nat, count: nat)

  /** on_commit(start, count, zeroFilled) sent to the listener. */
  datatype Notification = OnCommit(start: nat, count: nat, zeroFilled: bool)

  /** The pages [start, start + count). */
  function PageSet(start: nat, count: nat): (ps: set<nat>)
    ensures forall p: nat :: p in ps <==> start <= p < start + count
    decreases count
  {
    if count == 0 then {} else PageSet(start, count - 1) + {start + count - 1}
  }

  /** Whole-page mapping at page p: the storage holds p committed exactly
      when the region p / ppr is committed. */
  ghost predicate PageBacked(committed: set<nat>, bits: seq<bool>, ppr: nat, p: nat)
    requires ppr > 0
  {
    p in committed <==> p / ppr < |bits| && bits[p / ppr]
  }

  /** Whole-page mapping: PageBacked at every page. */
  ghost predicate LargerBacked(committed: set<nat>, bits: seq<bool>, ppr: nat)
    requires ppr > 0
  {
    forall p: nat :: PageBacked(committed, bits, ppr, p)
  }

  /** Shared mapping at page p: the storage holds p committed exactly when
      its reference count is positive. */
  ghost predicate PageCounted(committed: set<nat>, refs: seq<nat>, p: nat)
  {
    p in committed <==> p < |refs| && refs[p] > 0
  }

  /** Shared mapping: PageCounted at every page. */
  ghost predicate SmallerBacked(committed: set<nat>, refs: seq<nat>)
  {
    forall p: nat :: PageCounted(committed, refs, p)
  }

  /** Page p, of region k, under a commit of the clear regions [s, s + n)
      whose pages are ps: it is not committed yet if it is in ps, and
      afterwards it is committed exactly when bit k is set. */
  lemma LargerCommitPage(committed: set<nat>, bits: seq<bool>, s: nat, n: nat, p: nat, k: nat, ps: set<nat>)
    requires s + n <= |bits| && AllClear(bits, s, s + n)
    requires p in committed <==> k < |bits| && bits[k]
    requires p in ps <==> s <= k < s + n
    ensures p in ps ==> p !in committed
    ensures p in committed + ps <==> k < |bits| && SetRange(bits, s, s + n)[k]
  {
  }

  /** The pages [lo, lo + len) of the clear regions [s, s + n) are not
      committed, and committing them keeps the whole-page mapping in step
      with the bitmap. */
  lemma LargerCommit(committed: set<nat>, bits: seq<bool>, s: nat, n: nat, ppr: nat, lo: nat, len: nat)
    requires ppr > 0 && s + n <= |bits| && AllClear(bits, s, s + n)
    requires LargerBacked(committed, bits, ppr) && lo == s * ppr && len == n * ppr
    ensures forall p: nat :: p in PageSet(lo, len) ==> p !in committed
    ensures LargerBacked(committed + PageSet(lo, len), SetRange(bits, s, s + n), ppr)
  {
    LargerCommitPages(committed, bits, s, n, ppr, lo, len);
    LargerCommitBacked(committed, bits, s, n, ppr, lo, len);
  }

  lemma LargerCommitPages(committed: set<nat>, bits: seq<bool>, s: nat, n: nat, ppr: nat, lo: nat, len: nat)
    requires ppr > 0 && s + n <= |bits| && AllClear(bits, s, s + n)
    requires LargerBacked(committed, bits, ppr) && lo == s * ppr && len == n * ppr
    ensures forall p: nat :: p in PageSet(lo, len) ==> p !in committed
  {
    forall p: nat | p in PageSet(lo, len)
      ensures p !in committed
    {
      LargerCommitAt(committed, bits, s, n, ppr, lo, len, p);
    }
  }

  lemma LargerCommitBacked(committed: set<nat>, bits: seq<bool>, s: nat, n: nat, ppr: nat, lo: nat, len: nat)
    requires ppr > 0 && s + n <= |bits| && AllClear(bits, s, s + n)
    requires LargerBacked(committed, bits, ppr) && lo == s * ppr && len == n * ppr
    ensures LargerBacked(committed + PageSet(lo, len), SetRange(bits, s, s + n), ppr)
  {
    var committed' := committed + PageSet(lo, len);
    var bits' := SetRange(bits, s, s + n);
    forall p: nat
      ensures PageBacked(committed', bits', ppr, p)
    {
      LargerCommitAt(committed, bits, s, n, ppr, lo, len, p);
    }
  }

  /** The two facts of LargerCommit for one page p. */
  lemma LargerCommitAt(committed: set<nat>, bits: seq<bool>, s: nat, n: nat, ppr: nat, lo: nat, len: nat, p: nat)
    requires ppr > 0 && s + n <= |bits| && AllClear(bits, s, s + n)
    requires LargerBacked(committed, bits, ppr) && lo == s * ppr && len == n * ppr
    ensures p in PageSet(lo, len) ==> p !in committed
    ensures PageBacked(committed + PageSet(lo, len), SetRange(bits, s, s + n), ppr, p)
  {
    var ps := PageSet(lo, len);
    assert PageBacked(committed, bits, ppr, p);
    RegionPages(p, s, n, ppr);
    LargerCommitPage(committed, bits, s, n, p, p / ppr, ps);
  }

  /** Page p, of region k, under an uncommit of the committed regions
      [s, s + n) whose pages are ps: it is committed if it is in ps, and
      afterwards it is committed exactly when bit k is set. */
  lemma LargerUncommitPage(committed: set<nat>, bits: seq<bool>, s: nat, n: nat, p: nat, k: nat, ps: set<nat>)
    requires s + n <= |bits| && AllSet(bits, s, s + n)
    requires p in committed <==> k < |bits| && bits[k]
    requires p in ps <==> s <= k < s + n
    ensures p in ps ==> p in committed
    ensures p in committed - ps <==> k < |bits| && ClearRange(bits, s, s + n)[k]
  {
  }

  /** The pages [lo, lo + len) of the committed regions [s, s + n) are
      committed, and uncommitting them keeps the whole-page mapping in step
      with the bitmap. */
  lemma LargerUncommit(committed: set<nat>, bits: seq<bool>, s: nat, n: nat, ppr: nat, lo: nat, len: nat)
    requires ppr > 0 && s + n <= |bits| && AllSet(bits, s, s + n)
    requires LargerBacked(committed, bits, ppr) && lo == s * ppr && len == n * ppr
    ensures forall p: nat :: p in PageSet(lo, len) ==> p in committed
    ensures LargerBacked(committed - PageSet(lo, len), ClearRange(bits, s, s + n), ppr)
  {
    LargerUncommitPages(committed, bits, s, n, ppr, lo, len);
    LargerUncommitBacked(committed, bits, s, n, ppr, lo, len);
  }

  lemma LargerUncommitPages(committed: set<nat>, bits: seq<bool>, s: nat, n: nat, ppr: nat, lo: nat, len: nat)
    requires ppr > 0 && s + n <= |bits| && AllSet(bits, s, s + n)
    requires LargerBacked(committed, bits, ppr) && lo == s * ppr && len == n * ppr
    ensures forall p: nat :: p in PageSet(lo, len) ==> p in committed
  {
    forall p: nat | p in PageSet(lo, len)
      ensures p in committed
    {
      LargerUncommitAt(committed, bits, s, n, ppr, lo, len, p);
    }
  }

  lemma LargerUncommitBacked(committed: set<nat>, bits: seq<bool>, s: nat, n: nat, ppr: nat, lo: nat, len: nat)
    requires ppr > 0 && s + n <= |bits| && AllSet(bits, s, s + n)
    requires LargerBacked(committed, bits, ppr) && lo == s * ppr && len == n * ppr
    ensures LargerBacked(committed - PageSet(lo, len), ClearRange(bits, s, s + n), ppr)
  {
    var committed' := committed - PageSet(lo, len);
    var bits' := ClearRange(bits, s, s + n);
    forall p: nat
      ensures PageBacked(committed', bits', ppr, p)
    {
      LargerUncommitAt(committed, bits, s, n, ppr, lo, len, p);
    }
  }

  /** The two facts of LargerUncommit for one page p. */
  lemma LargerUncommitAt(committed: set<nat>, bits: seq<bool>, s: nat, n: nat, ppr: nat, lo: nat, len: nat, p: nat)
    requires ppr > 0 && s + n <= |bits| && AllSet(bits, s, s + n)
    requires LargerBacked(committed, bits, ppr) && lo == s * ppr && len == n * ppr
    ensures p in PageSet(lo, len) ==> p in committed
    ensures PageBacked(committed - PageSet(lo, len), ClearRange(bits, s, s + n), ppr, p)
  {
    var ps := PageSet(lo, len);
    assert PageBacked(committed, bits, ppr, p);
    RegionPages(p, s, n, ppr);
    LargerUncommitPage(committed, bits, s, n, p, p / ppr, ps);
  }

  /** The pages of a sequence of page indices, as a set. */
  function PageSetOf(pages: seq<nat>): (r: set<nat>)
    ensures forall p :: p in r <==> p in pages
  {
    set p | p in pages
  }

  /** The NUMA requests of the larger-than-commit strategy: one per region,
      at the region's first page, for the region's whole extent. */
  function RegionRequests(s: nat, n: nat, ppr: nat, pageSize: nat): (r: seq<NumaRequest>)
    ensures |r| == n
    ensures forall i :: 0 <= i < n ==> r[i] == NumaRequest((s + i) * ppr, pageSize * ppr, s + i)
  {
    if n == 0 then [] else RegionRequests(s, n - 1, ppr, pageSize) + [NumaRequest((s + n - 1) * ppr, pageSize * ppr, s + n - 1)]
  }

  /** The NUMA requests of the smaller-than-commit strategy: one per newly
      committed page, naming the region that committed it. */
  function PageRequests(rs: seq<nat>, rpp: nat, pageSize: nat): (r: seq<NumaRequest>)
    requires rpp > 0
    ensures |r| == |rs|
    ensures forall i :: 0 <= i < |rs| ==> r[i] == NumaRequest(RegionToPage(rs[i], rpp), pageSize, rs[i])
  {
    seq(|rs|, i requires 0 <= i < |rs| => NumaRequest(RegionToPage(rs[i], rpp), pageSize, rs[i]))
  }

  /** `calls` are single-page commits of `pages`, in that order. */
  predicate CommitsOf(calls: seq<StorageCall>, pages: seq<nat>)
  {
    |calls| == |pages| && forall i :: 0 <= i < |calls| ==> calls[i].Commit? && calls[i].start == pages[i] && calls[i].count == 1
  }

  predicate AllZeroFilled(calls: seq<StorageCall>)
  {
    forall i :: 0 <= i < |calls| && calls[i].Commit? ==> calls[i].zeroFilled
  }

  /** Single-page uncommits of `pages`, in that order. */
  function UncommitsOf(pages: seq<nat>): (r: seq<StorageCall>)
    ensures |r| == |pages| && forall i :: 0 <= i < |pages| ==> r[i] == Uncommit(pages[i], 1)
  {
    seq(|pages|, i requires 0 <= i < |pages| => Uncommit(pages[i], 1))
  }

  lemma PageSetOfAppend(ps: seq<nat>, p: nat)
    ensures PageSetOf(ps + [p]) == PageSetOf(ps) + {p}
  {
    var l := PageSetOf(ps + [p]);
    var r := PageSetOf(ps) + {p};
    forall x | x in r ensures x in l
    {
      if x != p {
        var i :| 0 <= i < |ps| && ps[i] == x;
        assert (ps + [p])[i] == x;
      } else {
        assert (ps + [p])[|ps|] == x;
      }
    }
  }

  /** A run of consecutive pages, as a set, is a page range. */
  lemma ConsecutivePageSet(ps: seq<nat>)
    requires forall i :: 0 <= i < |ps| ==> ps[i] == ps[0] + i
    ensures ps == [] ==> PageSetOf(ps) == {}
    ensures ps != [] ==> PageSetOf(ps) == PageSet(ps[0], |ps|)
  {
    if ps != [] {
      forall x | x in PageSet(ps[0], |ps|)
        ensures x in PageSetOf(ps)
      {
        assert ps[x - ps[0]] == x;
      }
    }
  }

  lemma PageRequestsAppend(rs: seq<nat>, r: nat, rpp: nat, pageSize: nat)
    requires rpp > 0
    ensures PageRequests(rs + [r], rpp, pageSize) == PageRequests(rs, rpp, pageSize) + [NumaRequest(RegionToPage(r, rpp), pageSize, r)]
  {
  }

  lemma CommitsOfAppend(calls: seq<StorageCall>, pages: seq<nat>, p: nat, zeroFilled: bool)
    requires CommitsOf(calls, pages)
    ensures CommitsOf(calls + [Commit(p, 1, zeroFilled)], pages + [p])
    ensures AllZeroFilled(calls + [Commit(p, 1, zeroFilled)]) == (AllZeroFilled(calls) && zeroFilled)
  {
    var calls' := calls + [Commit(p, 1, zeroFilled)];
    if AllZeroFilled(calls) && zeroFilled {
      forall i | 0 <= i < |calls'| && calls'[i].Commit?
        ensures calls'[i].zeroFilled
      {
        if i < |calls| {
          assert calls'[i] == calls[i];
        }
      }
    }
    if AllZeroFilled(calls') {
      forall i | 0 <= i < |calls| && calls[i].Commit?
        ensures calls[i].zeroFilled
      {
        assert calls'[i] == calls[i];
      }
      assert calls'[|calls|].zeroFilled;
    }
  }

  lemma UncommitsOfAppend(pages: seq<nat>, p: nat)
    ensures UncommitsOf(pages + [p]) == UncommitsOf(pages) + [Uncommit(p, 1)]
  {
  }

  lemma AppendAssoc<T>(a: seq<T>, b: seq<T>, x: T)
    ensures (a + b) + [x] == a + (b + [x])
  {
  }

  /** Raising the count of page p commits p exactly when the count was zero. */
  lemma BackedAfterIncrement(committed: set<nat>, refs: seq<nat>, p: nat)
    requires SmallerBacked(committed, refs) && p < |refs|
    ensures SmallerBacked(if refs[p] == 0 then committed + PageSet(p, 1) else committed, refs[p := refs[p] + 1])
  {
    var committed' := if refs[p] == 0 then committed + PageSet(p, 1) else committed;
    var refs' := refs[p := refs[p] + 1];
    forall q: nat
      ensures PageCounted(committed', refs', q)
    {
      assert PageCounted(committed, refs, q);
    }
  }

  /** Lowering the positive count of page p uncommits p exactly when the count was one. */
  lemma BackedAfterDecrement(committed: set<nat>, refs: seq<nat>, p: nat)
    requires SmallerBacked(committed, refs) && p < |refs| && refs[p] > 0
    ensures SmallerBacked(if refs[p] == 1 then committed - PageSet(p, 1) else committed, refs[p := refs[p] - 1])
  {
    var committed' := if refs[p] == 1 then committed - PageSet(p, 1) else committed;
    var refs' := refs[p := refs[p] - 1];
    forall q: nat
      ensures PageCounted(committed', refs', q)
    {
      assert PageCounted(committed, refs, q);
    }
  }

  /** Between two backed states, the pages dropped are those whose count fell to zero. */
  lemma BackedDifference(c: set<nat>, c': set<nat>, refs: seq<nat>, refs': seq<nat>)
    requires SmallerBacked(c, refs) && SmallerBacked(c', refs') && |refs| == |refs'|
    ensures forall p: nat :: p in c - c' <==> p < |refs| && refs[p] > 0 && refs'[p] == 0
  {
    forall p: nat
      ensures p in c - c' <==> p < |refs| && refs[p] > 0 && refs'[p] == 0
    {
      assert PageCounted(c, refs, p) && PageCounted(c', refs', p);
    }
  }

  /** The variables the sharing strategy's commit loop carries: the storage
      commits and NUMA requests issued so far (ghost logs), and
      num_committed, first_committed and all_zero_filled. */
  datatype CommitState = CommitState(calls: seq<StorageCall>, numa: seq<NumaRequest>,
                                     numCommitted: nat, firstCommitted: nat, allZeroFilled: bool)

  /** One turn of the commit loop for region r, whose page p has count
      `refcount`: at count zero the page is committed (the storage answering
      `zeroFilled`), placed on heap memory, and recorded as the first or a
      further committed page; otherwise the call can no longer be reported
      zero-filled. */
  function CommitStep(st: CommitState, refcount: nat, p: nat, r: nat, zeroFilled: bool,
                      pageSize: nat, heap: bool): CommitState
  {
    if refcount == 0 then
      CommitState(st.calls + [Commit(p, 1, zeroFilled)],
                  if heap then st.numa + [NumaRequest(p, pageSize, r)] else st.numa,
                  if st.firstCommitted == NoPage then 1 else st.numCommitted + 1,
                  if st.firstCommitted == NoPage then p else st.firstCommitted,
                  st.allZeroFilled && zeroFilled)
    else
      st.(allZeroFilled := false)
  }

  /** What the commit loop has done after the regions [start, r), in terms
      of the committing regions: a single-page storage commit per
      committing region's page, a NUMA request for each on heap memory, the
      number of them, the first of their pages, and whether every region
      found its page at count zero and every commit came back zero-filled. */
  ghost predicate CommitProgress(oldRefs: seq<nat>, start: nat, r: nat, rpp: nat, pageSize: nat, heap: bool,
                                 st: CommitState)
    requires rpp > 0
  {
    match st
    case CommitState(calls, numa, numCommitted, firstCommitted, allZeroFilled) =>
      var rs := CommittingRegions(oldRefs, start, r, rpp);
      && CommitsOf(calls, PagesOf(rs, rpp))
      && numa == (if heap then PageRequests(rs, rpp, pageSize) else [])
      && numCommitted == |rs|
      && (numCommitted == 0 ==> firstCommitted == NoPage)
      && (numCommitted > 0 ==> firstCommitted == RegionToPage(rs[0], rpp))
      && allZeroFilled == (AllRegionsFresh(oldRefs, start, r, rpp) && AllZeroFilled(calls))
  }

  /** A turn of the loop that finds its page at count zero keeps
      CommitProgress. */
  lemma CommitProgressFresh(oldRefs: seq<nat>, start: nat, r: nat, rpp: nat, pageSize: nat, heap: bool,
                            st: CommitState, p: nat, zeroFilled: bool, st': CommitState)
    requires rpp > 0 && start <= r && p == RegionToPage(r, rpp) && p < |oldRefs| <= NoPage
    requires AddRegions(oldRefs, start, r, rpp)[p] == 0
    requires st' == CommitStep(st, 0, p, r, zeroFilled, pageSize, heap)
    requires CommitProgress(oldRefs, start, r, rpp, pageSize, heap, st)
    ensures CommitProgress(oldRefs, start, r + 1, rpp, pageSize, heap, st')
  {
    var rs := CommittingRegions(oldRefs, start, r, rpp);
    AllRegionsFreshStep(oldRefs, start, r, rpp);
    AddRegionsCounts(oldRefs, start, r, rpp);
    assert CommitsPage(oldRefs, start, r, rpp);
    assert CommittingRegions(oldRefs, start, r + 1, rpp) == rs + [r];
    PagesOfAppend(rs, r, rpp);
    PageRequestsAppend(rs, r, rpp, pageSize);
    CommitsOfAppend(st.calls, PagesOf(rs, rpp), p, zeroFilled);
    if st.numCommitted > 0 {
      DivMonotone(rs[0], r, rpp);
      assert (rs + [r])[0] == rs[0];
    }
  }

  /** A turn of the loop that finds its page already counted keeps
      CommitProgress. */
  lemma CommitProgressCounted(oldRefs: seq<nat>, start: nat, r: nat, rpp: nat, pageSize: nat, heap: bool,
                              st: CommitState, p: nat, refcount: nat, zeroFilled: bool, st': CommitState)
    requires rpp > 0 && start <= r && p == RegionToPage(r, rpp) && p < |oldRefs| <= NoPage
    requires refcount == AddRegions(oldRefs, start, r, rpp)[p] && refcount > 0
    requires st' == CommitStep(st, refcount, p, r, zeroFilled, pageSize, heap)
    requires CommitProgress(oldRefs, start, r, rpp, pageSize, heap, st)
    ensures CommitProgress(oldRefs, start, r + 1, rpp, pageSize, heap, st')
  {
    AllRegionsFreshStep(oldRefs, start, r, rpp);
    AddRegionsCounts(oldRefs, start, r, rpp);
    assert !CommitsPage(oldRefs, start, r, rpp);
    assert CommittingRegions(oldRefs, start, r + 1, rpp) == CommittingRegions(oldRefs, start, r, rpp);
  }

  /** One turn of the loop keeps CommitProgress. */
  lemma CommitProgressStep(oldRefs: seq<nat>, start: nat, r: nat, rpp: nat, pageSize: nat, heap: bool,
                           st: CommitState, p: nat, zeroFilled: bool)
    requires rpp > 0 && start <= r && p == RegionToPage(r, rpp) && p < |oldRefs| <= NoPage
    requires CommitProgress(oldRefs, start, r, rpp, pageSize, heap, st)
    ensures CommitProgress(oldRefs, start, r + 1, rpp, pageSize, heap,
                           CommitStep(st, AddRegions(oldRefs, start, r, rpp)[p], p, r, zeroFilled, pageSize, heap))
  {
    var refcount := AddRegions(oldRefs, start, r, rpp)[p];
    var st' := CommitStep(st, refcount, p, r, zeroFilled, pageSize, heap);
    if refcount == 0 {
      CommitProgressFresh(oldRefs, start, r, rpp, pageSize, heap, st, p, zeroFilled, st');
    } else {
      CommitProgressCounted(oldRefs, start, r, rpp, pageSize, heap, st, p, refcount, zeroFilled, st');
    }
  }

  /** The loop starts from CommitProgress over no region at all. */
  lemma CommitProgressStart(oldRefs: seq<nat>, start: nat, rpp: nat, pageSize: nat, heap: bool)
    requires rpp > 0
    ensures CommitProgress(oldRefs, start, start, rpp, pageSize, heap, CommitState([], [], 0, NoPage, true))
  {
    assert CommittingRegions(oldRefs, start, start, rpp) == [];
  }

  /** The loop's variables after the regions [start, r), the storage having
      answered answers[k] to a commit made for region start + k: CommitStep
      applied region by region to the initial values. */
  ghost function CommitRun(oldRefs: seq<nat>, start: nat, r: nat, rpp: nat, pageSize: nat, heap: bool,
                           answers: seq<bool>): CommitState
    requires rpp > 0 && start <= r && |answers| == r - start
    requires r == start || RegionToPage(r - 1, rpp) < |oldRefs|
    decreases |answers|
  {
    if |answers| == 0 then CommitState([], [], 0, NoPage, true)
    else
      assert r - 1 == start || RegionToPage(r - 2, rpp) <= RegionToPage(r - 1, rpp) by {
        if r - 1 > start { DivMonotone(r - 2, r - 1, rpp); }
      }
      CommitStep(CommitRun(oldRefs, start, r - 1, rpp, pageSize, heap, answers[..|answers| - 1]),
                 AddRegions(oldRefs, start, r - 1, rpp)[RegionToPage(r - 1, rpp)], RegionToPage(r - 1, rpp), r - 1,
                 answers[|answers| - 1], pageSize, heap)
  }

  /** Whatever the storage answers, the loop's variables are those
      CommitProgress describes. */
  lemma {:induction false} CommitRunProgress(oldRefs: seq<nat>, start: nat, r: nat, rpp: nat, pageSize: nat,
                                              heap: bool, answers: seq<bool>)
    requires rpp > 0 && start <= r && |answers| == r - start && |oldRefs| <= NoPage
    requires r == start || RegionToPage(r - 1, rpp) < |oldRefs|
    ensures CommitProgress(oldRefs, start, r, rpp, pageSize, heap, CommitRun(oldRefs, start, r, rpp, pageSize, heap, answers))
  {
    if r == start {
      CommitProgressStart(oldRefs, start, rpp, pageSize, heap);
    } else {
      var q := r - 1;
      if q > start { DivMonotone(q - 1, q, rpp); }
      var before, zeroFilled := answers[..|answers| - 1], answers[|answers| - 1];
      var st := CommitRun(oldRefs, start, q, rpp, pageSize, heap, before);
      CommitRunProgress(oldRefs, start, q, rpp, pageSize, heap, before);
      CommitProgressStep(oldRefs, start, q, rpp, pageSize, heap, st, RegionToPage(q, rpp), zeroFilled);
      assert CommitRun(oldRefs, start, r, rpp, pageSize, heap, answers) ==
        CommitStep(st, AddRegions(oldRefs, start, q, rpp)[RegionToPage(q, rpp)], RegionToPage(q, rpp), q,
                   zeroFilled, pageSize, heap);
    }
  }

  /** The loop's variables over the whole range [start, e), spelled out
      for the committing regions rs. */
  lemma CommitProgressOutcome(oldRefs: seq<nat>, start: nat, e: nat, rpp: nat, pageSize: nat, heap: bool,
                              answers: seq<bool>, st: CommitState, rs: seq<nat>)
    requires rpp > 0 && start <= e && |answers| == e - start && |oldRefs| <= NoPage
    requires e == start || RegionToPage(e - 1, rpp) < |oldRefs|
    requires st == CommitRun(oldRefs, start, e, rpp, pageSize, heap, answers)
    requires rs == CommittingRegions(oldRefs, start, e, rpp)
    ensures CommitsOf(st.calls, PagesOf(rs, rpp))
    ensures st.numa == if heap then PageRequests(rs, rpp, pageSize) else []
    ensures st.numCommitted == |rs|
    ensures rs == [] ==> st.firstCommitted == NoPage
    ensures rs != [] ==> st.firstCommitted == RegionToPage(rs[0], rpp)
    ensures st.allZeroFilled == (AllRegionsFresh(oldRefs, start, e, rpp) && AllZeroFilled(st.calls))
  {
    CommitRunProgress(oldRefs, start, e, rpp, pageSize, heap, answers);
  }

  /** The pages newly committed by one call form the range [first, first + n). */
  lemma CommittedPageSet(bits: seq<bool>, refs: seq<nat>, s: nat, e: nat, rpp: nat, ps: seq<nat>)
    requires rpp > 0 && s <= e <= |bits| && AllClear(bits, s, e)
    requires RefcountsMatch(bits, refs, rpp)
    requires e == s || RegionToPage(e - 1, rpp) < |refs|
    requires ps == PagesOf(CommittingRegions(refs, s, e, rpp), rpp)
    ensures ps != [] ==> PageSetOf(ps) == PageSet(ps[0], |ps|)
  {
    CommittedPagesRun(bits, refs, s, e, rpp, ps);
    ConsecutivePageSet(ps);
  }

  /** After commit_regions on a clear range, the storage holds committed the
      old pages plus one run of consecutive new pages, disjoint from them:
      the pages of the committing regions. */
  lemma CommittedAfterCommit(oldCommitted: set<nat>, committed: set<nat>, bits: seq<bool>, refs: seq<nat>,
                             s: nat, e: nat, rpp: nat, rs: seq<nat>)
    requires rpp > 0 && s <= e <= |bits| && AllClear(bits, s, e)
    requires RefcountsMatch(bits, refs, rpp)
    requires e == s || RegionToPage(e - 1, rpp) < |refs|
    requires SmallerBacked(oldCommitted, refs)
    requires SmallerBacked(committed, AddRegions(refs, s, e, rpp))
    requires rs == CommittingRegions(refs, s, e, rpp)
    ensures rs == [] ==> committed == oldCommitted
    ensures rs != [] ==> committed == oldCommitted + PageSet(RegionToPage(rs[0], rpp), |rs|)
    ensures rs != [] ==> PageSet(RegionToPage(rs[0], rpp), |rs|) !! oldCommitted
  {
    var ps := PagesOf(rs, rpp);
    CommittedPageSet(bits, refs, s, e, rpp, ps);
    var refs' := AddRegions(refs, s, e, rpp);
    AddRegionsCounts(refs, s, e, rpp);
    forall p: nat
      ensures (p in committed) == (p in oldCommitted || p in ps)
      ensures p in ps ==> p !in oldCommitted
    {
      NewlyCommitted(refs, s, e, p, rpp);
      assert PageCounted(committed, refs', p) && PageCounted(oldCommitted, refs, p);
    }
    assert committed == oldCommitted + PageSetOf(ps);
  }

  /** What commit_regions with sharing comes to, on values: the loop's
      variables over [start, e), the new committed pages, and the counts
      matching the new bitmap. */
  lemma SmallerCommitOutcome(oldBits: seq<bool>, oldRefs: seq<nat>, oldCommitted: set<nat>, committed: set<nat>,
                             start: nat, e: nat, rpp: nat, pageSize: nat, heap: bool,
                             answers: seq<bool>, st: CommitState, rs: seq<nat>)
    requires rpp > 0 && start <= e <= |oldBits| && AllClear(oldBits, start, e) && |oldRefs| <= NoPage
    requires RefcountsMatch(oldBits, oldRefs, rpp) && SmallerBacked(oldCommitted, oldRefs)
    requires e == start || RegionToPage(e - 1, rpp) < |oldRefs|
    requires SmallerBacked(committed, AddRegions(oldRefs, start, e, rpp))
    requires |answers| == e - start && st == CommitRun(oldRefs, start, e, rpp, pageSize, heap, answers)
    requires rs == CommittingRegions(oldRefs, start, e, rpp)
    ensures RefcountsMatch(SetRange(oldBits, start, e), AddRegions(oldRefs, start, e, rpp), rpp)
    ensures CommitsOf(st.calls, PagesOf(rs, rpp))
    ensures st.numa == if heap then PageRequests(rs, rpp, pageSize) else []
    ensures st.numCommitted == |rs| && (rs != [] ==> st.firstCommitted == RegionToPage(rs[0], rpp))
    ensures st.allZeroFilled == (AllRegionsFresh(oldRefs, start, e, rpp) && AllZeroFilled(st.calls))
    ensures rs == [] ==> committed == oldCommitted
    ensures rs != [] ==> committed == oldCommitted + PageSet(RegionToPage(rs[0], rpp), |rs|)
    ensures rs != [] ==> PageSet(RegionToPage(rs[0], rpp), |rs|) !! oldCommitted
  {
    CommitProgressOutcome(oldRefs, start, e, rpp, pageSize, heap, answers, st, rs);
    CommittedAfterCommit(oldCommitted, committed, oldBits, oldRefs, start, e, rpp, rs);
    RefcountsMatchAfterCommit(oldBits, oldRefs, start, e, rpp);
  }

  /** The storage calls of the sharing strategy's uncommit loop after the
      regions [start, r): a single-page uncommit whenever a region finds the
      count of its page at one. */
  function UncommitLoop(oldRefs: seq<nat>, start: nat, r: nat, rpp: nat): seq<StorageCall>
    requires rpp > 0
    decreases r
  {
    if r <= start then []
    else
      var q := RemoveRegions(oldRefs, start, r - 1, rpp);
      var p := RegionToPage(r - 1, rpp);
      UncommitLoop(oldRefs, start, r - 1, rpp) + (if p < |q| && q[p] == 1 then [Uncommit(p, 1)] else [])
  }

  /** One turn of the uncommit loop, for region r whose page p has count
      `refcount`: the count is positive, it goes down by one, and the page is
      uncommitted when the count was one. */
  lemma UncommitTurn(oldRefs: seq<nat>, start: nat, r: nat, e: nat, rpp: nat, p: nat, refcount: nat, r': nat)
    requires rpp > 0 && start <= r < e && p == RegionToPage(r, rpp) && p < |oldRefs|
    requires CountsCover(oldRefs, start, e, rpp)
    requires r' == r + 1 && |RemoveRegions(oldRefs, start, r, rpp)| == |oldRefs|
    requires refcount == RemoveRegions(oldRefs, start, r, rpp)[p]
    ensures refcount > 0
    ensures RemoveRegions(oldRefs, start, r', rpp) == RemoveRegions(oldRefs, start, r, rpp)[p := refcount - 1]
    ensures UncommitLoop(oldRefs, start, r', rpp) ==
      UncommitLoop(oldRefs, start, r, rpp) + (if refcount == 1 then [Uncommit(p, 1)] else [])
  {
    RemovableShorter(oldRefs, start, r + 1, e, rpp);
    RemoveRegionsStep(oldRefs, start, r, rpp);
  }

  /** The uncommit loop's turn for region e uncommits its page exactly
      when that region releases it. */
  lemma UncommitLoopTurn(oldRefs: seq<nat>, start: nat, e: nat, rpp: nat, e': nat)
    requires rpp > 0 && start <= e && e' == e + 1 && CountsCover(oldRefs, start, e, rpp)
    ensures UncommitLoop(oldRefs, start, e', rpp) ==
      UncommitLoop(oldRefs, start, e, rpp) +
      (if ReleasesPage(oldRefs, start, e, rpp) then [Uncommit(RegionToPage(e, rpp), 1)] else [])
  {
    var p := RegionToPage(e, rpp);
    if p < |oldRefs| {
      RemoveRegionsAt(oldRefs, start, e, rpp, p);
    }
  }

  /** The uncommit loop uncommits, in order, the pages of the releasing regions. */
  lemma {:induction false} UncommitLoopReleases(oldRefs: seq<nat>, start: nat, e: nat, rpp: nat)
    requires rpp > 0 && CountsCover(oldRefs, start, e, rpp)
    ensures UncommitLoop(oldRefs, start, e, rpp) == UncommitsOf(PagesOf(ReleasingRegions(oldRefs, start, e, rpp), rpp))
    decreases e
  {
    if e > start {
      RemovableShorter(oldRefs, start, e - 1, e, rpp);
      UncommitLoopReleases(oldRefs, start, e - 1, rpp);
      UncommitLoopTurn(oldRefs, start, e - 1, rpp, e);
      var released := ReleasingRegions(oldRefs, start, e - 1, rpp);
      if ReleasesPage(oldRefs, start, e - 1, rpp) {
        PagesOfAppend(released, e - 1, rpp);
        UncommitsOfAppend(PagesOf(released, rpp), RegionToPage(e - 1, rpp));
      }
    }
  }

  class G1RegionToSpaceMapper {
    const pageSize: nat
    const regionGranularity: nat
    const commitFactor: nat
    const memoryType: MemoryType
    /** The AlwaysPreTouch flag, read once. */
    const alwaysPreTouch: bool
    const strategy: Strategy
    /** One bit per region: is the region committed? */
    const commitMap: array<bool>
    /** Sharing strategy only: per page, the number of committed regions on it. */
    const refcounts: array<nat>
    var hasListener: bool

    ghost var committedPages: set<nat>
    ghost var storageLog: seq<StorageCall>
    ghost var numaLog: seq<NumaRequest>
    ghost var pretouchLog: seq<PageRange>
    ghost var listenerLog: seq<Notification>

    /** The object invariant: the storage holds committed exactly the pages
        of committed regions; with sharing, refcount[p] is the number of
        committed regions on page p, and the count array covers the page of
        every region. (The strategy is the factory's choice, which the
        constructor states.) */
    ghost predicate Valid()
      reads this, commitMap, refcounts
    {
      && pageSize > 0
      && match strategy
         case LargerThanCommit(ppr) =>
           && ppr > 0
           && refcounts.Length == 0
           && LargerBacked(committedPages, commitMap[..], ppr)
         case SmallerThanCommit(rpp) =>
           && rpp > 0
           && refcounts.Length <= NoPage
           && (commitMap.Length == 0 || RegionToPage(commitMap.Length - 1, rpp) < refcounts.Length)
           && RefcountsMatch(commitMap[..], refcounts[..], rpp)
           && SmallerBacked(committedPages, refcounts[..])
    }

    /** create_mapper and the constructors it calls: the strategy is chosen by
        comparing the region size with the commit granule, the bitmap starts
        clear and the reference counts start at zero. */
    constructor (reservedSize: nat, pageSize: nat, regionGranularity: nat, commitFactor: nat,
                 memoryType: MemoryType, alwaysPreTouch: bool)
      requires IsPowerOfTwo(pageSize) && IsPowerOfTwo(regionGranularity)
      requires IsPowerOfTwo(commitFactor) && reservedSize <= NoPage
      ensures Valid()
      ensures this.pageSize == pageSize && this.regionGranularity == regionGranularity
      ensures this.commitFactor == commitFactor && this.memoryType == memoryType
      ensures this.alwaysPreTouch == alwaysPreTouch
      ensures strategy == SelectStrategy(pageSize, regionGranularity, commitFactor)
      ensures strategy.LargerThanCommit? <==> regionGranularity >= pageSize * commitFactor
      ensures commitMap.Length == reservedSize * commitFactor / regionGranularity
      ensures forall r :: 0 <= r < commitMap.Length ==> !commitMap[r]
      ensures refcounts.Length == if strategy.SmallerThanCommit? then RefcountEntries(reservedSize, pageSize) else 0
      ensures forall p :: 0 <= p < refcounts.Length ==> refcounts[p] == 0
      ensures !hasListener && committedPages == {}
      ensures storageLog == [] && numaLog == [] && pretouchLog == [] && listenerLog == []
      ensures fresh(commitMap) && fresh(refcounts)
    {
      PowerOfTwoPositive(pageSize);
      PowerOfTwoPositive(regionGranularity);
      PowerOfTwoPositive(commitFactor);
      this.pageSize := pageSize;
      this.regionGranularity := regionGranularity;
      this.commitFactor := commitFactor;
      this.memoryType := memoryType;
      this.alwaysPreTouch := alwaysPreTouch;
      var chosen := SelectStrategy(pageSize, regionGranularity, commitFactor);
      strategy := chosen;
      MulMonotone(0, reservedSize, commitFactor);
      DivMonotone(0, reservedSize * commitFactor, regionGranularity);
      var numRegions: nat := reservedSize * commitFactor / regionGranularity;
      commitMap := new bool[numRegions](_ => false);
      if chosen.LargerThanCommit? {
        // G1RegionsLargerThanCommitSizeMapper's guarantee holds: the region
        // spans at least one page.
        MulMonotone(1, commitFactor, pageSize);
        assert regionGranularity >= pageSize;
        refcounts := new nat[0];
      } else {
        var entries := RefcountEntries(reservedSize, pageSize);
        refcounts := new nat[entries](_ => 0);
      }
      hasListener := false;
      committedPages := {};
      storageLog, numaLog, pretouchLog, listenerLog := [], [], [], [];
      new;
      if chosen.LargerThanCommit? {
        assert LargerBacked(committedPages, commitMap[..], chosen.pagesPerRegion);
      } else {
        var rpp := chosen.regionsPerPage;
        // Both the region size and the commit granule are powers of two, so
        // a page holds an exact number of regions and the count array covers
        // every region's page.
        PowerOfTwoProduct(pageSize, commitFactor);
        PowerOfTwoDivides(regionGranularity, pageSize * commitFactor);
        RegionsOnCountedPages(reservedSize, pageSize, regionGranularity, commitFactor, rpp);
        forall p | 0 <= p < refcounts.Length
          ensures refcounts[p] == CountSet(commitMap[..], commitMap.Length, p, rpp)
        {
          CountSetZero(commitMap[..], commitMap.Length, p, rpp);
        }
      }
    }

    /** Installs the commit listener (declared in the mapper's header). */
    method SetMappingChangedListener()
      modifies this`hasListener
      ensures hasListener
    {
      hasListener := true;
    }

    // ------------------------------------------------------------------
    // The collaborators, as logs

    /** Storage commit of `count` pages from `start`; the pages must not be
        committed yet. Whether the memory comes back zero-filled is up to the
        platform. */
    method StorageCommit(start: nat, count: nat) returns (zeroFilled: bool)
      requires forall p: nat :: p in PageSet(start, count) ==> p !in committedPages
      modifies this`committedPages, this`storageLog
      ensures committedPages == old(committedPages) + PageSet(start, count)
      ensures storageLog == old(storageLog) + [Commit(start, count, zeroFilled)]
    {
      zeroFilled :| true;
      committedPages := committedPages + PageSet(start, count);
      storageLog := storageLog + [Commit(start, count, zeroFilled)];
    }

    /** Storage uncommit of `count` pages from `start`, all committed. */
    method StorageUncommit(start: nat, count: nat)
      requires forall p: nat :: p in PageSet(start, count) ==> p in committedPages
      modifies this`committedPages, this`storageLog
      ensures committedPages == old(committedPages) - PageSet(start, count)
      ensures storageLog == old(storageLog) + [Uncommit(start, count)]
    {
      committedPages := committedPages - PageSet(start, count);
      storageLog := storageLog + [Uncommit(start, count)];
    }

    method RequestMemoryOnNode(page: nat, bytes: nat, region: nat)
      modifies this`numaLog
      ensures numaLog == old(numaLog) + [NumaRequest(page, bytes, region)]
    {
      numaLog := numaLog + [NumaRequest(page, bytes, region)];
    }

    method Pretouch(start: nat, count: nat)
      modifies this`pretouchLog
      ensures pretouchLog == old(pretouchLog) + [PageRange(start, count)]
      ensures commitMap[..] == old(commitMap[..]) && refcounts[..] == old(refcounts[..])
    {
      pretouchLog := pretouchLog + [PageRange(start, count)];
    }

    /** fire_on_commit: the listener hears of the call once, if there is one. */
    method FireOnCommit(start: nat, numRegions: nat, zeroFilled: bool)
      modifies this`listenerLog
      ensures listenerLog == old(listenerLog) + if hasListener then [OnCommit(start, numRegions, zeroFilled)] else []
      ensures commitMap[..] == old(commitMap[..]) && refcounts[..] == old(refcounts[..])
    {
      if hasListener {
        listenerLog := listenerLog + [OnCommit(start, numRegions, zeroFilled)];
      }
    }

    // ------------------------------------------------------------------
    // Public operations

    /** commit_regions: makes regions [start, start+numRegions) committed.
        Without sharing, one storage commit covers the range's pages; with
        sharing, `rs` are the regions that find their page at count zero, and
        exactly their pages, one consecutive block, are committed one by one.
        `zeroFilled` is the flag handed to the listener. */
    method CommitRegions(start: nat, numRegions: nat) returns (ghost zeroFilled: bool, ghost rs: seq<nat>)
      requires Valid()
      requires start + numRegions <= commitMap.Length
      requires AllClear(commitMap[..], start, start + numRegions)
      modifies this`committedPages, this`storageLog, this`numaLog, this`pretouchLog, this`listenerLog
      modifies commitMap, refcounts
      ensures Valid()
      ensures commitMap[..] == SetRange(old(commitMap[..]), start, start + numRegions)
      ensures listenerLog == old(listenerLog) + if hasListener then [OnCommit(start, numRegions, zeroFilled)] else []
      ensures old(committedPages) <= committedPages
      ensures strategy.LargerThanCommit? ==> var ppr := strategy.pagesPerRegion;
        && storageLog == old(storageLog) + [Commit(start * ppr, numRegions * ppr, zeroFilled)]
        && committedPages == old(committedPages) + PageSet(start * ppr, numRegions * ppr)
        && numaLog == old(numaLog) + (if memoryType == JavaHeap then RegionRequests(start, numRegions, ppr, pageSize) else [])
        && pretouchLog == old(pretouchLog) + (if alwaysPreTouch then [PageRange(start * ppr, numRegions * ppr)] else [])
      ensures strategy.SmallerThanCommit? ==> var rpp := strategy.regionsPerPage;
        && refcounts[..] == AddRegions(old(refcounts[..]), start, start + numRegions, rpp)
        && rs == CommittingRegions(old(refcounts[..]), start, start + numRegions, rpp)
        && |storageLog| >= |old(storageLog)| && storageLog[..|old(storageLog)|] == old(storageLog)
        && CommitsOf(storageLog[|old(storageLog)|..], PagesOf(rs, rpp))
        && numaLog == old(numaLog) + (if memoryType == JavaHeap then PageRequests(rs, rpp, pageSize) else [])
        && (rs == [] ==> committedPages == old(committedPages))
        && (rs != [] ==> committedPages == old(committedPages) + PageSet(RegionToPage(rs[0], rpp), |rs|))
        && (rs != [] ==> PageSet(RegionToPage(rs[0], rpp), |rs|) !! old(committedPages))
        && pretouchLog == old(pretouchLog) +
             (if alwaysPreTouch && rs != [] then [PageRange(RegionToPage(rs[0], rpp), |rs|)] else [])
        && zeroFilled == (AllRegionsFresh(old(refcounts[..]), start, start + numRegions, rpp)
                          && AllZeroFilled(storageLog[|old(storageLog)|..]))
    {
      if strategy.LargerThanCommit? {
        zeroFilled := LargerCommitRegions(start, numRegions);
        rs := [];
      } else {
        zeroFilled, rs := SmallerCommitRegions(start, numRegions);
      }
    }

    /** uncommit_regions: makes regions [start, start+numRegions) uncommitted.
        Without sharing, one storage uncommit covers the range's pages; with
        sharing, a page is uncommitted, one by one in region order, exactly
        when the last committed region on it is released. */
    method UncommitRegions(start: nat, numRegions: nat)
      requires Valid()
      requires start + numRegions <= commitMap.Length
      requires AllSet(commitMap[..], start, start + numRegions)
      modifies this`committedPages, this`storageLog, commitMap, refcounts
      ensures Valid()
      ensures commitMap[..] == ClearRange(old(commitMap[..]), start, start + numRegions)
      ensures committedPages <= old(committedPages)
      ensures strategy.LargerThanCommit? ==> var ppr := strategy.pagesPerRegion;
        && storageLog == old(storageLog) + [Uncommit(start * ppr, numRegions * ppr)]
        && committedPages == old(committedPages) - PageSet(start * ppr, numRegions * ppr)
      ensures strategy.SmallerThanCommit? ==> var rpp := strategy.regionsPerPage;
        && CountsCover(old(refcounts[..]), start, start + numRegions, rpp)
        && refcounts[..] == RemoveRegions(old(refcounts[..]), start, start + numRegions, rpp)
        && storageLog == old(storageLog) + UncommitsOf(PagesOf(ReleasingRegions(old(refcounts[..]), start, start + numRegions, rpp), rpp))
        && forall p: nat :: p in old(committedPages) - committedPages <==>
             p < refcounts.Length && old(refcounts[p]) > 0 && refcounts[p] == 0
    {
      if strategy.LargerThanCommit? {
        LargerUncommitRegions(start, numRegions);
      } else {
        SmallerUncommitRegions(start, numRegions);
      }
    }

    // ------------------------------------------------------------------
    // Regions larger than the commit granule

    /** One storage commit over the pages of the whole range, one NUMA request
        per region on heap memory, one pretouch over the same pages, the bits
        set, and the storage's zero-filled answer passed on. */
    method LargerCommitRegions(start: nat, numRegions: nat) returns (ghost zeroFilled: bool)
      requires Valid() && strategy.LargerThanCommit?
      requires start + numRegions <= commitMap.Length
      requires AllClear(commitMap[..], start, start + numRegions)
      modifies this`committedPages, this`storageLog, this`numaLog, this`pretouchLog, this`listenerLog, commitMap
      ensures Valid()
      ensures commitMap[..] == SetRange(old(commitMap[..]), start, start + numRegions)
      ensures var ppr := strategy.pagesPerRegion;
        && storageLog == old(storageLog) + [Commit(start * ppr, numRegions * ppr, zeroFilled)]
        && committedPages == old(committedPages) + PageSet(start * ppr, numRegions * ppr)
        && numaLog == old(numaLog) + (if memoryType == JavaHeap then RegionRequests(start, numRegions, ppr, pageSize) else [])
        && pretouchLog == old(pretouchLog) + (if alwaysPreTouch then [PageRange(start * ppr, numRegions * ppr)] else [])
      ensures listenerLog == old(listenerLog) + if hasListener then [OnCommit(start, numRegions, zeroFilled)] else []
    {
      var ppr := strategy.pagesPerRegion;
      var startPage := start * ppr;
      var sizeInPages := numRegions * ppr;
      LargerCommit(committedPages, commitMap[..], start, numRegions, ppr, startPage, sizeInPages);
      var zf := StorageCommit(startPage, sizeInPages);
      if memoryType == JavaHeap {
        LargerNumaLoop(start, numRegions, ppr);
      }
      if alwaysPreTouch {
        Pretouch(startPage, sizeInPages);
      }
      forall r | start <= r < start + numRegions {
        commitMap[r] := true;
      }
      assert commitMap[..] == SetRange(old(commitMap[..]), start, start + numRegions);
      FireOnCommit(start, numRegions, zf);
      zeroFilled := zf;
    }

    /** The NUMA loop of commit_regions without sharing: one request per
        region, for the region's pages, in region order. */
    method LargerNumaLoop(start: nat, numRegions: nat, ppr: nat)
      modifies this`numaLog
      ensures numaLog == old(numaLog) + RegionRequests(start, numRegions, ppr, pageSize)
    {
      var regionIndex := start;
      while regionIndex < start + numRegions
        invariant start <= regionIndex <= start + numRegions
        invariant numaLog == old(numaLog) + RegionRequests(start, regionIndex - start, ppr, pageSize)
      {
        RequestMemoryOnNode(regionIndex * ppr, pageSize * ppr, regionIndex);
        regionIndex := regionIndex + 1;
      }
    }

    /** One storage uncommit over the pages of the whole range, the bits cleared. */
    method LargerUncommitRegions(start: nat, numRegions: nat)
      requires Valid() && strategy.LargerThanCommit?
      requires start + numRegions <= commitMap.Length
      requires AllSet(commitMap[..], start, start + numRegions)
      modifies this`committedPages, this`storageLog, commitMap
      ensures Valid()
      ensures commitMap[..] == ClearRange(old(commitMap[..]), start, start + numRegions)
      ensures var ppr := strategy.pagesPerRegion;
        && storageLog == old(storageLog) + [Uncommit(start * ppr, numRegions * ppr)]
        && committedPages == old(committedPages) - PageSet(start * ppr, numRegions * ppr)
    {
      var ppr := strategy.pagesPerRegion;
      LargerUncommit(committedPages, commitMap[..], start, numRegions, ppr, start * ppr, numRegions * ppr);
      StorageUncommit(start * ppr, numRegions * ppr);
      forall r | start <= r < start + numRegions {
        commitMap[r] := false;
      }
      assert commitMap[..] == ClearRange(old(commitMap[..]), start, start + numRegions);
    }

    // ------------------------------------------------------------------
    // Regions smaller than the commit granule

    /** One turn of the loop of commit_regions with sharing, for region i:
        the page of the region is committed (and placed, on heap memory) only
        when its count is zero; its count goes up by one and bit i is set.
        The loop's variables move as CommitStep says, the storage having
        answered `zeroFilled`. */
    method SmallerCommitTurn(ghost oldBits: seq<bool>, ghost oldRefs: seq<nat>, ghost oldStorage: seq<StorageCall>,
                             ghost oldNuma: seq<NumaRequest>, start: nat, i: nat,
                             firstCommitted: nat, numCommitted: nat, allZeroFilled: bool,
                             ghost calls: seq<StorageCall>, ghost numa: seq<NumaRequest>, ghost answers: seq<bool>)
      returns (firstCommitted': nat, numCommitted': nat, allZeroFilled': bool,
               ghost calls': seq<StorageCall>, ghost numa': seq<NumaRequest>, ghost answers': seq<bool>)
      requires strategy.SmallerThanCommit? && strategy.regionsPerPage > 0
      requires start <= i < commitMap.Length == |oldBits| && |answers| == i - start
      requires RegionToPage(i, strategy.regionsPerPage) < refcounts.Length == |oldRefs|
      requires i == start || RegionToPage(i - 1, strategy.regionsPerPage) < |oldRefs|
      requires commitMap[..] == SetRange(oldBits, start, i)
      requires refcounts[..] == AddRegions(oldRefs, start, i, strategy.regionsPerPage)
      requires storageLog == oldStorage + calls && numaLog == oldNuma + numa
      requires SmallerBacked(committedPages, refcounts[..])
      requires CommitState(calls, numa, numCommitted, firstCommitted, allZeroFilled) ==
        CommitRun(oldRefs, start, i, strategy.regionsPerPage, pageSize, memoryType == JavaHeap, answers)
      modifies this`committedPages, this`storageLog, this`numaLog, commitMap, refcounts
      ensures commitMap[..] == SetRange(oldBits, start, i + 1)
      ensures refcounts[..] == AddRegions(oldRefs, start, i + 1, strategy.regionsPerPage)
      ensures storageLog == oldStorage + calls' && numaLog == oldNuma + numa'
      ensures SmallerBacked(committedPages, refcounts[..])
      ensures |answers'| == i + 1 - start
      ensures CommitState(calls', numa', numCommitted', firstCommitted', allZeroFilled') ==
        CommitRun(oldRefs, start, i + 1, strategy.regionsPerPage, pageSize, memoryType == JavaHeap, answers')
    {
      var rpp := strategy.regionsPerPage;
      var pageIdx := RegionToPage(i, rpp);
      AddRegionsStep(oldRefs, start, i, rpp);
      BackedAfterIncrement(committedPages, refcounts[..], pageIdx);
      ghost var refs' := refcounts[..][pageIdx := refcounts[pageIdx] + 1];
      ghost var committed' := if refcounts[pageIdx] == 0 then committedPages + PageSet(pageIdx, 1) else committedPages;
      var oldRefcount := refcounts[pageIdx];
      firstCommitted', numCommitted', calls', numa' := firstCommitted, numCommitted, calls, numa;
      var zeroFilled := false;
      if oldRefcount == 0 {
        if firstCommitted == NoPage {
          firstCommitted' := pageIdx;
          numCommitted' := 1;
        } else {
          numCommitted' := numCommitted + 1;
        }
        assert PageSet(pageIdx, 1) == {pageIdx} && PageCounted(committedPages, refcounts[..], pageIdx);
        zeroFilled := StorageCommit(pageIdx, 1);
        AppendAssoc(oldStorage, calls, Commit(pageIdx, 1, zeroFilled));
        calls' := calls + [Commit(pageIdx, 1, zeroFilled)];
        if memoryType == JavaHeap {
          RequestMemoryOnNode(pageIdx, pageSize, i);
          AppendAssoc(oldNuma, numa, NumaRequest(pageIdx, pageSize, i));
          numa' := numa + [NumaRequest(pageIdx, pageSize, i)];
        }
      }
      allZeroFilled' := allZeroFilled && zeroFilled;
      refcounts[pageIdx] := oldRefcount + 1;
      commitMap[i] := true;
      SetRangeStep(oldBits, start, i);
      answers' := answers + [zeroFilled];
      assert answers'[..|answers'| - 1] == answers;
      assert refcounts[..] == refs' && committedPages == committed';
    }

    /** The loop of commit_regions with sharing over [start, start + numRegions):
        the variables it carries are those of CommitRun for the storage's
        answers, and the calls it makes are the logs those variables hold. */
    method SmallerCommitLoop(start: nat, numRegions: nat)
      returns (firstCommitted: nat, numCommitted: nat, allZeroFilled: bool,
               ghost calls: seq<StorageCall>, ghost numa: seq<NumaRequest>, ghost answers: seq<bool>)
      requires strategy.SmallerThanCommit? && strategy.regionsPerPage > 0
      requires start + numRegions <= commitMap.Length && refcounts.Length <= NoPage
      requires numRegions > 0 ==> RegionToPage(start + numRegions - 1, strategy.regionsPerPage) < refcounts.Length
      requires SmallerBacked(committedPages, refcounts[..])
      modifies this`committedPages, this`storageLog, this`numaLog, commitMap, refcounts
      ensures commitMap[..] == SetRange(old(commitMap[..]), start, start + numRegions)
      ensures refcounts[..] == AddRegions(old(refcounts[..]), start, start + numRegions, strategy.regionsPerPage)
      ensures storageLog == old(storageLog) + calls && numaLog == old(numaLog) + numa
      ensures SmallerBacked(committedPages, refcounts[..])
      ensures |answers| == numRegions
      ensures CommitState(calls, numa, numCommitted, firstCommitted, allZeroFilled) ==
        CommitRun(old(refcounts[..]), start, start + numRegions, strategy.regionsPerPage, pageSize,
                  memoryType == JavaHeap, answers)
    {
      var rpp := strategy.regionsPerPage;
      ghost var heap := memoryType == JavaHeap;
      ghost var oldBits := commitMap[..];
      ghost var oldRefs := refcounts[..];
      ghost var oldStorage := storageLog;
      ghost var oldNuma := numaLog;
      calls, numa, answers := [], [], [];
      firstCommitted, numCommitted, allZeroFilled := NoPage, 0, true;
      var regionIdx := start;
      while regionIdx < start + numRegions
        invariant start <= regionIdx <= start + numRegions && |answers| == regionIdx - start
        invariant commitMap[..] == SetRange(oldBits, start, regionIdx)
        invariant refcounts[..] == AddRegions(oldRefs, start, regionIdx, rpp)
        invariant storageLog == oldStorage + calls && numaLog == oldNuma + numa
        invariant SmallerBacked(committedPages, refcounts[..])
        invariant regionIdx == start || RegionToPage(regionIdx - 1, rpp) < |oldRefs|
        invariant CommitState(calls, numa, numCommitted, firstCommitted, allZeroFilled) ==
          CommitRun(oldRefs, start, regionIdx, rpp, pageSize, heap, answers)
      {
        DivMonotone(regionIdx, start + numRegions - 1, rpp);
        firstCommitted, numCommitted, allZeroFilled, calls, numa, answers :=
          SmallerCommitTurn(oldBits, oldRefs, oldStorage, oldNuma, start, regionIdx,
                            firstCommitted, numCommitted, allZeroFilled, calls, numa, answers);
        regionIdx := regionIdx + 1;
      }
      assert regionIdx == start + numRegions;
    }

    /** commit_regions with sharing: the loop above, then one pretouch over
        the newly committed pages and the listener's notification. The newly committed pages are consecutive, and one
        pretouch covers exactly them. The call is reported zero-filled only
        if every region found its page at count zero and every storage commit
        came back zero-filled. */
    method SmallerCommitRegions(start: nat, numRegions: nat) returns (ghost zeroFilled: bool, ghost rs: seq<nat>)
      requires Valid() && strategy.SmallerThanCommit?
      requires start + numRegions <= commitMap.Length
      requires AllClear(commitMap[..], start, start + numRegions)
      modifies this`committedPages, this`storageLog, this`numaLog, this`pretouchLog, this`listenerLog
      modifies commitMap, refcounts
      ensures Valid()
      ensures commitMap[..] == SetRange(old(commitMap[..]), start, start + numRegions)
      ensures refcounts[..] == AddRegions(old(refcounts[..]), start, start + numRegions, strategy.regionsPerPage)
      ensures rs == CommittingRegions(old(refcounts[..]), start, start + numRegions, strategy.regionsPerPage)
      ensures |storageLog| >= |old(storageLog)| && storageLog[..|old(storageLog)|] == old(storageLog)
      ensures CommitsOf(storageLog[|old(storageLog)|..], PagesOf(rs, strategy.regionsPerPage))
      ensures numaLog == old(numaLog) + (if memoryType == JavaHeap then PageRequests(rs, strategy.regionsPerPage, pageSize) else [])
      ensures rs == [] ==> committedPages == old(committedPages)
      ensures rs != [] ==> committedPages == old(committedPages) + PageSet(RegionToPage(rs[0], strategy.regionsPerPage), |rs|)
      ensures rs != [] ==> PageSet(RegionToPage(rs[0], strategy.regionsPerPage), |rs|) !! old(committedPages)
      ensures pretouchLog == old(pretouchLog) +
        (if alwaysPreTouch && rs != [] then [PageRange(RegionToPage(rs[0], strategy.regionsPerPage), |rs|)] else [])
      ensures zeroFilled == (AllRegionsFresh(old(refcounts[..]), start, start + numRegions, strategy.regionsPerPage)
                             && AllZeroFilled(storageLog[|old(storageLog)|..]))
      ensures listenerLog == old(listenerLog) + if hasListener then [OnCommit(start, numRegions, zeroFilled)] else []
    {
      var firstCommitted, numCommitted, allZeroFilled;
      firstCommitted, numCommitted, allZeroFilled, rs := SmallerCommitPages(start, numRegions);
      if alwaysPreTouch && numCommitted > 0 {
        Pretouch(firstCommitted, numCommitted);
      }
      FireOnCommit(start, numRegions, allZeroFilled);
      zeroFilled := allZeroFilled;
    }

    /** The storage side of commit_regions with sharing: the loop, and what
        its variables come to. The new pages are consecutive: the first of
        them and their number describe them. */
    method SmallerCommitPages(start: nat, numRegions: nat)
      returns (firstCommitted: nat, numCommitted: nat, allZeroFilled: bool, ghost rs: seq<nat>)
      requires Valid() && strategy.SmallerThanCommit?
      requires start + numRegions <= commitMap.Length
      requires AllClear(commitMap[..], start, start + numRegions)
      modifies this`committedPages, this`storageLog, this`numaLog, commitMap, refcounts
      ensures Valid()
      ensures commitMap[..] == SetRange(old(commitMap[..]), start, start + numRegions)
      ensures refcounts[..] == AddRegions(old(refcounts[..]), start, start + numRegions, strategy.regionsPerPage)
      ensures rs == CommittingRegions(old(refcounts[..]), start, start + numRegions, strategy.regionsPerPage)
      ensures |storageLog| >= |old(storageLog)| && storageLog[..|old(storageLog)|] == old(storageLog)
      ensures CommitsOf(storageLog[|old(storageLog)|..], PagesOf(rs, strategy.regionsPerPage))
      ensures numaLog == old(numaLog) + (if memoryType == JavaHeap then PageRequests(rs, strategy.regionsPerPage, pageSize) else [])
      ensures rs == [] ==> committedPages == old(committedPages)
      ensures rs != [] ==> committedPages == old(committedPages) + PageSet(RegionToPage(rs[0], strategy.regionsPerPage), |rs|)
      ensures rs != [] ==> PageSet(RegionToPage(rs[0], strategy.regionsPerPage), |rs|) !! old(committedPages)
      ensures numCommitted == |rs| && (rs != [] ==> firstCommitted == RegionToPage(rs[0], strategy.regionsPerPage))
      ensures allZeroFilled == (AllRegionsFresh(old(refcounts[..]), start, start + numRegions, strategy.regionsPerPage)
                                && AllZeroFilled(storageLog[|old(storageLog)|..]))
    {
      var rpp := strategy.regionsPerPage;
      if numRegions > 0 {
        DivMonotone(start + numRegions - 1, commitMap.Length - 1, rpp);
      }
      ghost var oldBits := commitMap[..];
      ghost var oldRefs := refcounts[..];
      ghost var oldStorage := storageLog;
      ghost var oldCommitted := committedPages;
      ghost var calls, numa, answers;
      firstCommitted, numCommitted, allZeroFilled, calls, numa, answers := SmallerCommitLoop(start, numRegions);
      rs := CommittingRegions(oldRefs, start, start + numRegions, rpp);
      SmallerCommitOutcome(oldBits, oldRefs, oldCommitted, committedPages, start, start + numRegions, rpp, pageSize,
                           memoryType == JavaHeap, answers, CommitState(calls, numa, numCommitted, firstCommitted, allZeroFilled), rs);
      assert storageLog[|oldStorage|..] == calls;
    }

    /** One turn of the sharing strategy's uncommit loop, for region i of
        [start, e): the count of its page goes down by one, the page is
        uncommitted when the count was one, and bit i is cleared. */
    method SmallerUncommitTurn(ghost oldRefs: seq<nat>, ghost oldStorage: seq<StorageCall>, start: nat, e: nat, i: nat)
      requires strategy.SmallerThanCommit? && strategy.regionsPerPage > 0
      requires start <= i < e <= commitMap.Length
      requires RegionToPage(i, strategy.regionsPerPage) < refcounts.Length == |oldRefs|
      requires CountsCover(oldRefs, start, e, strategy.regionsPerPage)
      requires refcounts[..] == RemoveRegions(oldRefs, start, i, strategy.regionsPerPage)
      requires storageLog == oldStorage + UncommitLoop(oldRefs, start, i, strategy.regionsPerPage)
      requires SmallerBacked(committedPages, refcounts[..])
      modifies this`committedPages, this`storageLog, commitMap, refcounts
      ensures commitMap[..] == old(commitMap[..])[i := false]
      ensures refcounts[..] == RemoveRegions(oldRefs, start, i + 1, strategy.regionsPerPage)
      ensures storageLog == oldStorage + UncommitLoop(oldRefs, start, i + 1, strategy.regionsPerPage)
      ensures SmallerBacked(committedPages, refcounts[..])
      ensures committedPages <= old(committedPages)
    {
      var rpp := strategy.regionsPerPage;
      var idx := RegionToPage(i, rpp);
      var oldRefcount := refcounts[idx];
      UncommitTurn(oldRefs, start, i, e, rpp, idx, oldRefcount, i + 1);
      BackedAfterDecrement(committedPages, refcounts[..], idx);
      ghost var refs' := refcounts[..][idx := oldRefcount - 1];
      ghost var committed' := if oldRefcount == 1 then committedPages - PageSet(idx, 1) else committedPages;
      if oldRefcount == 1 {
        // The region was the last one committed on its page.
        assert PageSet(idx, 1) == {idx} && PageCounted(committedPages, refcounts[..], idx);
        StorageUncommit(idx, 1);
        AppendAssoc(oldStorage, UncommitLoop(oldRefs, start, i, rpp), Uncommit(idx, 1));
      }
      refcounts[idx] := oldRefcount - 1;
      commitMap[i] := false;
      assert refcounts[..] == refs' && committedPages == committed';
    }

    /** The sharing strategy's uncommit loop over [start, start + numRegions). */
    method SmallerUncommitLoop(start: nat, numRegions: nat)
      requires strategy.SmallerThanCommit? && strategy.regionsPerPage > 0
      requires start + numRegions <= commitMap.Length
      requires numRegions > 0 ==> RegionToPage(start + numRegions - 1, strategy.regionsPerPage) < refcounts.Length
      requires CountsCover(refcounts[..], start, start + numRegions, strategy.regionsPerPage)
      requires SmallerBacked(committedPages, refcounts[..])
      modifies this`committedPages, this`storageLog, commitMap, refcounts
      ensures commitMap[..] == ClearRange(old(commitMap[..]), start, start + numRegions)
      ensures refcounts[..] == RemoveRegions(old(refcounts[..]), start, start + numRegions, strategy.regionsPerPage)
      ensures storageLog == old(storageLog) + UncommitLoop(old(refcounts[..]), start, start + numRegions, strategy.regionsPerPage)
      ensures SmallerBacked(committedPages, refcounts[..])
      ensures committedPages <= old(committedPages)
    {
      var rpp := strategy.regionsPerPage;
      ghost var oldBits := commitMap[..];
      ghost var oldRefs := refcounts[..];
      ghost var oldStorage := storageLog;
      ghost var oldCommitted := committedPages;
      var i := start;
      while i < start + numRegions
        invariant start <= i <= start + numRegions
        invariant commitMap[..] == ClearRange(oldBits, start, i)
        invariant refcounts[..] == RemoveRegions(oldRefs, start, i, rpp)
        invariant storageLog == oldStorage + UncommitLoop(oldRefs, start, i, rpp)
        invariant SmallerBacked(committedPages, refcounts[..])
        invariant committedPages <= oldCommitted
      {
        DivMonotone(i, start + numRegions - 1, rpp);
        ClearRangeStep(oldBits, start, i);
        SmallerUncommitTurn(oldRefs, oldStorage, start, start + numRegions, i);
        i := i + 1;
      }
      assert i == start + numRegions;
    }

    /** uncommit_regions with sharing: a page is uncommitted only when its
        count drops from one to zero, in region order; every count goes down
        by the regions of the range on its page and every bit is cleared. */
    method SmallerUncommitRegions(start: nat, numRegions: nat)
      requires Valid() && strategy.SmallerThanCommit?
      requires start + numRegions <= commitMap.Length
      requires AllSet(commitMap[..], start, start + numRegions)
      modifies this`committedPages, this`storageLog, commitMap, refcounts
      ensures Valid()
      ensures commitMap[..] == ClearRange(old(commitMap[..]), start, start + numRegions)
      ensures CountsCover(old(refcounts[..]), start, start + numRegions, strategy.regionsPerPage)
      ensures refcounts[..] == RemoveRegions(old(refcounts[..]), start, start + numRegions, strategy.regionsPerPage)
      ensures storageLog == old(storageLog) + UncommitsOf(PagesOf(ReleasingRegions(old(refcounts[..]), start, start + numRegions,
                                                                                   strategy.regionsPerPage), strategy.regionsPerPage))
      ensures forall p: nat :: p in old(committedPages) - committedPages <==>
        p < refcounts.Length && old(refcounts[p]) > 0 && refcounts[p] == 0
      ensures committedPages <= old(committedPages)
    {
      var rpp := strategy.regionsPerPage;
      ghost var oldBits := commitMap[..];
      ghost var oldRefs := refcounts[..];
      ghost var oldCommitted := committedPages;
      ghost var oldStorage := storageLog;
      RefcountsMatchAfterUncommit(oldBits, oldRefs, start, start + numRegions, rpp);
      if numRegions > 0 {
        assert oldBits[start + numRegions - 1];
      }
      SmallerUncommitLoop(start, numRegions);
      ghost var calls := UncommitLoop(oldRefs, start, start + numRegions, rpp);
      assert storageLog == oldStorage + calls;
      UncommitLoopReleases(oldRefs, start, start + numRegions, rpp);
      assert calls == UncommitsOf(PagesOf(ReleasingRegions(oldRefs, start, start + numRegions, rpp), rpp));
      assert RefcountsMatch(commitMap[..], refcounts[..], rpp);
      BackedDifference(oldCommitted, committedPages, oldRefs, refcounts[..]);
    }
  }

  /** Sharing in practice: with four regions per page, committing regions 0
      and 1 commits page 0 once and leaves its count at two; uncommitting
      region 0 keeps the page; uncommitting region 1 releases it
      (ShareCommittedPage, ReleaseSharedPage). Every step follows from the contracts of
      CommitRegions and UncommitRegions alone: their count updates
      (AddRegions, RemoveRegions) and the object invariant, which ties the
      storage's page state to the counts. */
  method SharingScenario()
  {
    assert Pow2(2) == 4 && Pow2(0) == 1;
    var m := new G1RegionToSpaceMapper(16, 4, 1, 1, JavaHeap, false);
    assert m.strategy == SmallerThanCommit(4);
    assert m.commitMap.Length == 16 && m.refcounts.Length == 4;
    assert m.refcounts[..] == [0, 0, 0, 0];
    ScenarioCounts();
    var _, _ := m.CommitRegions(0, 1);
    assert m.refcounts[..] == [1, 0, 0, 0];
    assert PageCounted(m.committedPages, m.refcounts[..], 0);
    assert 0 in m.committedPages;
    ShareCommittedPage(m);
  }

  /** The second step of SharingScenario: region 1 joins region 0 on the
      committed page 0, whose count rises to two. */
  method ShareCommittedPage(m: G1RegionToSpaceMapper)
    requires m.Valid() && m.strategy == SmallerThanCommit(4) && m.commitMap.Length == 16
    requires m.refcounts[..] == [1, 0, 0, 0] && m.commitMap[0] && !m.commitMap[1]
    modifies m`committedPages, m`storageLog, m`numaLog, m`pretouchLog, m`listenerLog
    modifies m.commitMap, m.refcounts
  {
    ScenarioCounts();
    var _, _ := m.CommitRegions(1, 1);
    assert m.refcounts[..] == [2, 0, 0, 0];
    assert PageCounted(m.committedPages, m.refcounts[..], 0);
    assert 0 in m.committedPages;
    ReleaseSharedPage(m);
  }

  /** The last steps of SharingScenario: page 0 holds the committed regions
      0 and 1; it stays committed until both are uncommitted. */
  method ReleaseSharedPage(m: G1RegionToSpaceMapper)
    requires m.Valid() && m.strategy == SmallerThanCommit(4) && m.commitMap.Length == 16
    requires m.refcounts[..] == [2, 0, 0, 0] && m.commitMap[0] && m.commitMap[1]
    modifies m`committedPages, m`storageLog, m.commitMap, m.refcounts
  {
    ScenarioCounts();
    m.UncommitRegions(0, 1);
    assert m.refcounts[..] == [1, 0, 0, 0];
    assert PageCounted(m.committedPages, m.refcounts[..], 0);
    assert 0 in m.committedPages;
    m.UncommitRegions(1, 1);
    assert m.refcounts[..] == [0, 0, 0, 0];
    assert PageCounted(m.committedPages, m.refcounts[..], 0);
    assert 0 !in m.committedPages;
  }

  /** The count updates of that scenario, region by region. */
  lemma ScenarioCounts()
    ensures AddRegions([0, 0, 0, 0], 0, 1, 4) == [1, 0, 0, 0]
    ensures AddRegions([1, 0, 0, 0], 1, 2, 4) == [2, 0, 0, 0]
    ensures RemoveRegions([2, 0, 0, 0], 0, 1, 4) == [1, 0, 0, 0]
    ensures RemoveRegions([1, 0, 0, 0], 1, 2, 4) == [0, 0, 0, 0]
  {
  }
}
