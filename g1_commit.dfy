/**
  Region/page arithmetic of the G1 region-to-space mapper, on values.

  A reservation is divided into equal regions; the operating system commits
  memory in pages (scaled by the commit factor). The factory picks one of two
  strategies. When a region spans whole pages, the region range [s, s+n)
  covers the page range [s*ppr, (s+n)*ppr). When several regions share a page,
  region r lives on page r / rpp and a per-page reference count says how many
  of its regions are committed.

  This module holds the pure side: the strategy choice, the commit bitmap as a
  sequence, the counting functions behind the reference counts, and the
  order in which the sharing strategy commits and releases pages.
*/
module G1Commit {

  /** The largest size_t value, the "no page" sentinel of commit_regions. */
  const NoPage: nat := 0xFFFF_FFFF_FFFF_FFFF

  function Pow2(k: nat): (r: nat)
    ensures r >= 1
  {
    if k == 0 then 1 else 2 * Pow2(k - 1)
  }

  /** is_power_of_2: n is 2^k for some k. */
  ghost predicate IsPowerOfTwo(n: nat)
  {
    exists k: nat :: Pow2(k) == n
  }

  lemma PowerOfTwoPositive(n: nat)
    requires IsPowerOfTwo(n)
    ensures n > 0
  {
    var k: nat :| Pow2(k) == n;
  }

  lemma {:induction false} Pow2Add(a: nat, b: nat)
    ensures Pow2(a) * Pow2(b) == Pow2(a + b)
    decreases a
  {
    if a > 0 {
      Pow2Add(a - 1, b);
      assert Pow2(a) * Pow2(b) == 2 * (Pow2(a - 1) * Pow2(b));
    }
  }

  /** The product of two powers of two is one. */
  lemma PowerOfTwoProduct(x: nat, y: nat)
    requires IsPowerOfTwo(x) && IsPowerOfTwo(y)
    ensures IsPowerOfTwo(x * y)
  {
    var a: nat :| Pow2(a) == x;
    var b: nat :| Pow2(b) == y;
    Pow2Add(a, b);
  }

  /** A higher power of two is a lower one times a power of two of at least 2. */
  lemma Pow2Split(a: nat, b: nat)
    requires a < b
    ensures Pow2(b) == Pow2(b - a) * Pow2(a) && Pow2(b - a) >= 2
  {
    Pow2Add(b - a, a);
    assert Pow2(b - a) == 2 * Pow2(b - a - 1);
  }

  /** Of two powers of two, the larger is a multiple of the smaller. */
  lemma PowerOfTwoDivides(x: nat, y: nat)
    requires IsPowerOfTwo(x) && IsPowerOfTwo(y) && x <= y
    ensures x > 0 && (y / x) * x == y
  {
    PowerOfTwoPositive(x);
    PowerOfTwoPositive(y);
    var a: nat :| Pow2(a) == x;
    var b: nat :| Pow2(b) == y;
    if a > b {
      Pow2Split(b, a);
      MulMonotone(2, Pow2(a - b), y);
      assert false;
    } else if a < b {
      Pow2Split(a, b);
      var m := Pow2(b - a);
      assert y == m * x;
      DivExact(m, x);
    } else {
      DivExact(1, x);
    }
  }

  lemma DivExact(k: nat, x: nat)
    requires x > 0
    ensures (k * x) / x == k
  {
    DivBounds(k * x, x);
    var q := (k * x) / x;
    if q < k {
      MulMonotone(q + 1, k, x);
    }
  }

  /** The two mapping strategies, with the ratio each one keeps. */
  datatype Strategy =
    | LargerThanCommit(pagesPerRegion: nat)
    | SmallerThanCommit(regionsPerPage: nat)

  /** The factory's choice: a region of at least one commit granule is mapped
      onto whole pages, a smaller one shares its page with its neighbours. */
  function SelectStrategy(pageSize: nat, regionGranularity: nat, commitFactor: nat): (s: Strategy)
    requires pageSize > 0 && regionGranularity > 0 && commitFactor > 0
    ensures s.LargerThanCommit? <==> regionGranularity >= pageSize * commitFactor
    ensures s.LargerThanCommit? ==>
      s.pagesPerRegion >= 1 &&
      s.pagesPerRegion * (pageSize * commitFactor) <= regionGranularity < (s.pagesPerRegion + 1) * (pageSize * commitFactor)
    ensures s.SmallerThanCommit? ==>
      s.regionsPerPage >= 1 &&
      s.regionsPerPage * regionGranularity <= pageSize * commitFactor < (s.regionsPerPage + 1) * regionGranularity
  {
    var granule := pageSize * commitFactor;
    if regionGranularity >= granule then
      DivBounds(regionGranularity, granule);
      LargerThanCommit(regionGranularity / granule)
    else
      DivBounds(granule, regionGranularity);
      SmallerThanCommit(granule / regionGranularity)
  }

  lemma DivBounds(a: nat, d: nat)
    requires d > 0
    ensures (a / d) * d <= a < (a / d + 1) * d
  {
  }

  /** Number of entries of the reference-count table: one per page of the
      reservation, rounded up to whole pages. */
  function RefcountEntries(reservedSize: nat, pageSize: nat): (k: nat)
    requires pageSize > 0
    ensures k * pageSize >= reservedSize && (k == 0 || (k - 1) * pageSize < reservedSize)
    ensures k <= reservedSize
  {
    var k := (reservedSize + pageSize - 1) / pageSize;
    EntriesBounds(reservedSize, pageSize, k);
    k
  }

  /** The rounded-up quotient covers reservedSize without a spare page. */
  lemma EntriesBounds(reservedSize: nat, pageSize: nat, k: nat)
    requires pageSize > 0 && k == (reservedSize + pageSize - 1) / pageSize
    ensures k * pageSize >= reservedSize && (k == 0 || (k - 1) * pageSize < reservedSize)
    ensures k <= reservedSize
  {
    DivBounds(reservedSize + pageSize - 1, pageSize);
    assert (k + 1) * pageSize == k * pageSize + pageSize;
    if k > 0 {
      var j := k - 1;
      assert j * pageSize == k * pageSize - pageSize;
      MulMonotone(1, pageSize, j);
    }
  }

  /** With an exact number of regions per page, every region of the bitmap
      (reservation * commit factor / region size of them) lives on a page the
      count array covers. */
  lemma RegionsOnCountedPages(reservedSize: nat, pageSize: nat, regionGranularity: nat, commitFactor: nat, rpp: nat)
    requires pageSize > 0 && regionGranularity > 0 && commitFactor > 0 && rpp > 0
    requires rpp * regionGranularity == pageSize * commitFactor
    ensures var n := reservedSize * commitFactor / regionGranularity;
      n == 0 || RegionToPage(n - 1, rpp) < RefcountEntries(reservedSize, pageSize)
  {
    var n := reservedSize * commitFactor / regionGranularity;
    if n > 0 {
      var q := RegionToPage(n - 1, rpp);
      var k := RefcountEntries(reservedSize, pageSize);
      var granule := pageSize * commitFactor;
      DivBounds(n - 1, rpp);
      DivBounds(reservedSize * commitFactor, regionGranularity);
      MulStrict(q * rpp, n, regionGranularity);
      MulAssoc(q, rpp, regionGranularity);
      MulMonotone(reservedSize, k * pageSize, commitFactor);
      MulAssoc(k, pageSize, commitFactor);
      MulCancelLess(q, k, granule);
    }
  }

  lemma MulStrict(x: nat, y: nat, c: nat)
    requires x < y && c > 0
    ensures x * c < y * c
  {
    MulMonotone(x + 1, y, c);
  }

  lemma MulAssoc(a: nat, b: nat, c: nat)
    ensures (a * b) * c == a * (b * c)
  {
  }

  lemma MulCancelLess(x: nat, y: nat, c: nat)
    requires x * c < y * c
    ensures x < y
  {
    if x >= y {
      MulMonotone(y, x, c);
      assert false;
    }
  }

  // ----------------------------------------------------------------------
  // The commit bitmap as a sequence

  predicate AllClear(bits: seq<bool>, s: nat, e: nat)
    requires s <= e <= |bits|
  {
    forall i :: s <= i < e ==> !bits[i]
  }

  predicate AllSet(bits: seq<bool>, s: nat, e: nat)
    requires s <= e <= |bits|
  {
    forall i :: s <= i < e ==> bits[i]
  }

  /** BitMap::set_range(s, e). */
  function SetRange(bits: seq<bool>, s: nat, e: nat): (r: seq<bool>)
    requires s <= e <= |bits|
    ensures |r| == |bits|
    ensures forall i :: 0 <= i < |r| ==> r[i] == (bits[i] || s <= i < e)
    decreases e
  {
    if e == s then bits else SetRange(bits, s, e - 1)[e - 1 := true]
  }

  /** BitMap::clear_range(s, e). */
  function ClearRange(bits: seq<bool>, s: nat, e: nat): (r: seq<bool>)
    requires s <= e <= |bits|
    ensures |r| == |bits|
    ensures forall i :: 0 <= i < |r| ==> r[i] == (bits[i] && !(s <= i < e))
    decreases e
  {
    if e == s then bits else ClearRange(bits, s, e - 1)[e - 1 := false]
  }

  /** Committing a clear range and uncommitting it again restores the bitmap. */
  lemma ClearAfterSet(bits: seq<bool>, s: nat, e: nat)
    requires s <= e <= |bits| && AllClear(bits, s, e)
    ensures ClearRange(SetRange(bits, s, e), s, e) == bits
  {
  }

  /** Uncommitting a set range and committing it again restores the bitmap. */
  lemma SetAfterClear(bits: seq<bool>, s: nat, e: nat)
    requires s <= e <= |bits| && AllSet(bits, s, e)
    ensures SetRange(ClearRange(bits, s, e), s, e) == bits
  {
  }

  // ----------------------------------------------------------------------
  // Counting regions per page (sharing strategy)

  /** region_idx_to_page_idx: the page that region r lives on. */
  function RegionToPage(r: nat, rpp: nat): nat
    requires rpp > 0
  {
    r / rpp
  }

  /** The number of regions in [s, e) that live on page p. */
  function CountOnPage(s: nat, e: nat, p: nat, rpp: nat): nat
    requires rpp > 0
    decreases e
  {
    if e <= s then 0
    else CountOnPage(s, e - 1, p, rpp) + (if RegionToPage(e - 1, rpp) == p then 1 else 0)
  }

  /** The number of set bits among the first k whose region lives on page p:
      the value the reference count of page p must have. */
  function CountSet(bits: seq<bool>, k: nat, p: nat, rpp: nat): nat
    requires k <= |bits| && rpp > 0
  {
    if k == 0 then 0
    else CountSet(bits, k - 1, p, rpp) + (if bits[k - 1] && RegionToPage(k - 1, rpp) == p then 1 else 0)
  }

  /** No sharing in the larger-than-commit strategy: the page range
      [s*ppr, (s+n)*ppr) that commit_regions(s, n) hands to the storage holds
      exactly the pages of the regions s .. s+n-1. */
  lemma RegionPages(p: nat, s: nat, n: nat, ppr: nat)
    requires ppr > 0
    ensures s * ppr + n * ppr == (s + n) * ppr
    ensures s * ppr <= p < (s + n) * ppr <==> s <= p / ppr < s + n
  {
    DivBounds(p, ppr);
    if p / ppr < s {
      MulMonotone(p / ppr + 1, s, ppr);
    } else if p / ppr >= s + n {
      MulMonotone(s + n, p / ppr, ppr);
    } else {
      MulMonotone(s, p / ppr, ppr);
      MulMonotone(p / ppr + 1, s + n, ppr);
    }
  }

  lemma DivMonotone(a: nat, b: nat, d: nat)
    requires a <= b && d > 0
    ensures a / d <= b / d
  {
    DivBounds(a, d);
    DivBounds(b, d);
    if a / d > b / d {
      MulMonotone(b / d + 1, a / d, d);
    }
  }

  /** Setting a clear range adds, on every page, exactly the regions of the
      range that live there. */
  lemma {:induction false} CountSetAfterSetRange(bits: seq<bool>, s: nat, e: nat, k: nat, p: nat, rpp: nat)
    requires s <= e <= |bits| && k <= |bits| && rpp > 0
    requires AllClear(bits, s, e)
    ensures CountSet(SetRange(bits, s, e), k, p, rpp)
         == CountSet(bits, k, p, rpp) + CountOnPage(s, if k < s then s else if k > e then e else k, p, rpp)
  {
    if k > 0 {
      CountSetAfterSetRange(bits, s, e, k - 1, p, rpp);
    }
  }

  /** The counting invariant is preserved by committing the range [s, e). */
  lemma CountSetCommitted(bits: seq<bool>, s: nat, e: nat, p: nat, rpp: nat)
    requires s <= e <= |bits| && rpp > 0 && AllClear(bits, s, e)
    ensures CountSet(SetRange(bits, s, e), |bits|, p, rpp) == CountSet(bits, |bits|, p, rpp) + CountOnPage(s, e, p, rpp)
  {
    CountSetAfterSetRange(bits, s, e, |bits|, p, rpp);
  }

  /** The counting invariant is preserved by uncommitting the range [s, e). */
  lemma CountSetUncommitted(bits: seq<bool>, s: nat, e: nat, p: nat, rpp: nat)
    requires s <= e <= |bits| && rpp > 0 && AllSet(bits, s, e)
    ensures CountSet(bits, |bits|, p, rpp) == CountSet(ClearRange(bits, s, e), |bits|, p, rpp) + CountOnPage(s, e, p, rpp)
  {
    var cleared := ClearRange(bits, s, e);
    SetAfterClear(bits, s, e);
    CountSetCommitted(cleared, s, e, p, rpp);
  }

  /** A page with no committed region has count zero. */
  lemma {:induction false} CountSetZero(bits: seq<bool>, k: nat, p: nat, rpp: nat)
    requires k <= |bits| && rpp > 0
    requires forall i :: 0 <= i < k && RegionToPage(i, rpp) == p ==> !bits[i]
    ensures CountSet(bits, k, p, rpp) == 0
  {
    if k > 0 {
      CountSetZero(bits, k - 1, p, rpp);
    }
  }

  lemma {:induction false} CountOnPageMonotone(s: nat, e: nat, e': nat, p: nat, rpp: nat)
    requires e <= e' && rpp > 0
    ensures CountOnPage(s, e, p, rpp) <= CountOnPage(s, e', p, rpp)
    decreases e'
  {
    if e < e' {
      CountOnPageMonotone(s, e, e' - 1, p, rpp);
    }
  }

  /** A region finds no earlier region of the same call on its page exactly
      when it is the first region of the call or the first one of its page. */
  lemma CountOnPageBefore(s: nat, r: nat, rpp: nat)
    requires s <= r && rpp > 0
    ensures CountOnPage(s, r, RegionToPage(r, rpp), rpp) == 0 <==> (r == s || RegionToPage(r - 1, rpp) != RegionToPage(r, rpp))
  {
    if r > s {
      var p := RegionToPage(r, rpp);
      var q := RegionToPage(r - 1, rpp);
      if q != p {
        DivMonotone(r - 1, r, rpp);
        CountOnPageBelow(s, r, p, rpp);
      } else {
        assert CountOnPage(s, r, p, rpp) == CountOnPage(s, r - 1, p, rpp) + 1;
      }
    }
  }

  /** No region of [s, e) lives on a page above that of region e-1. */
  lemma {:induction false} CountOnPageBelow(s: nat, e: nat, p: nat, rpp: nat)
    requires rpp > 0 && (e <= s || RegionToPage(e - 1, rpp) < p)
    ensures CountOnPage(s, e, p, rpp) == 0
    decreases e
  {
    if e > s {
      var r := e - 1;
      if r > s {
        DivMonotone(r - 1, r, rpp);
      }
      CountOnPageBelow(s, r, p, rpp);
      assert CountOnPage(s, e, p, rpp) == CountOnPage(s, r, p, rpp);
    }
  }

  /** Regions of a page form a block: all regions of page q are in [q*rpp, (q+1)*rpp). */
  lemma PageBlock(i: nat, q: nat, rpp: nat)
    requires rpp > 0
    ensures RegionToPage(i, rpp) == q <==> q * rpp <= i < (q + 1) * rpp
  {
    var k := RegionToPage(i, rpp);
    DivBounds(i, rpp);
    if k < q {
      MulMonotone(k + 1, q, rpp);
    } else if k > q {
      MulMonotone(q + 1, k, rpp);
    }
  }

  // ----------------------------------------------------------------------
  // The order in which the sharing strategy commits and releases pages

  /** The reference count region r finds when commit_regions(s, _) reaches
      it: the old count of its page plus the earlier regions of the call on
      the same page. */
  function RefcountSeenOnCommit(oldRefs: seq<nat>, s: nat, r: nat, rpp: nat): nat
    requires rpp > 0 && RegionToPage(r, rpp) < |oldRefs|
  {
    oldRefs[RegionToPage(r, rpp)] + CountOnPage(s, r, RegionToPage(r, rpp), rpp)
  }

  /** Region r makes its page committed: the page had count zero at its turn. */
  predicate CommitsPage(oldRefs: seq<nat>, s: nat, r: nat, rpp: nat)
    requires rpp > 0
  {
    RegionToPage(r, rpp) < |oldRefs| && RefcountSeenOnCommit(oldRefs, s, r, rpp) == 0
  }

  /** The regions of [s, e), ascending, that make their page committed. */
  function CommittingRegions(oldRefs: seq<nat>, s: nat, e: nat, rpp: nat): (rs: seq<nat>)
    requires rpp > 0
    ensures forall i :: 0 <= i < |rs| ==> s <= rs[i] < e && CommitsPage(oldRefs, s, rs[i], rpp)
    ensures e <= s ==> rs == []
    decreases e
  {
    if e <= s then []
    else
      var rest := CommittingRegions(oldRefs, s, e - 1, rpp);
      if CommitsPage(oldRefs, s, e - 1, rpp) then rest + [e - 1] else rest
  }

  /** CommittingRegions lists every region of the range that makes its page committed,
      each once, in ascending order. */
  lemma {:induction false} CommittingRegionsExact(oldRefs: seq<nat>, s: nat, e: nat, rpp: nat)
    requires rpp > 0
    ensures var rs := CommittingRegions(oldRefs, s, e, rpp);
      && (forall r :: s <= r < e && CommitsPage(oldRefs, s, r, rpp) ==> r in rs)
      && (forall i, j :: 0 <= i < j < |rs| ==> rs[i] < rs[j])
    decreases e
  {
    if e > s {
      CommittingRegionsExact(oldRefs, s, e - 1, rpp);
    }
  }

  /** The pages those regions commit, in the order the storage sees them. */
  function PagesOf(rs: seq<nat>, rpp: nat): (ps: seq<nat>)
    requires rpp > 0
    ensures |ps| == |rs| && forall i :: 0 <= i < |rs| ==> ps[i] == RegionToPage(rs[i], rpp)
  {
    seq(|rs|, i requires 0 <= i < |rs| => RegionToPage(rs[i], rpp))
  }

  /** Every region of [s, e) found its page at count zero: the condition under
      which commit_regions may report the whole call as zero-filled. */
  predicate AllRegionsFresh(oldRefs: seq<nat>, s: nat, e: nat, rpp: nat)
    requires rpp > 0
  {
    forall r :: s <= r < e ==> CommitsPage(oldRefs, s, r, rpp)
  }

  /** Two regions of the same call that share a page make the call not
      zero-filled, whatever the storage reports: the later one finds the count
      its predecessor raised. */
  lemma SharedPageNotFresh(oldRefs: seq<nat>, s: nat, e: nat, r1: nat, r2: nat, rpp: nat)
    requires rpp > 0 && s <= r1 < r2 < e && RegionToPage(r1, rpp) == RegionToPage(r2, rpp)
    ensures !AllRegionsFresh(oldRefs, s, e, rpp)
  {
    var p := RegionToPage(r2, rpp);
    CountOnPageMonotone(s, r1 + 1, r2, p, rpp);
    assert CountOnPage(s, r1 + 1, p, rpp) == CountOnPage(s, r1, p, rpp) + 1;
    assert !CommitsPage(oldRefs, s, r2, rpp);
  }

  /** The reference count region r finds when uncommit_regions(s, _) reaches it. */
  function RefcountSeenOnUncommit(oldRefs: seq<nat>, s: nat, r: nat, rpp: nat): int
    requires rpp > 0 && RegionToPage(r, rpp) < |oldRefs|
  {
    oldRefs[RegionToPage(r, rpp)] - CountOnPage(s, r, RegionToPage(r, rpp), rpp)
  }

  /** Region r releases its page: the page had count one at its turn. */
  predicate ReleasesPage(oldRefs: seq<nat>, s: nat, r: nat, rpp: nat)
    requires rpp > 0
  {
    RegionToPage(r, rpp) < |oldRefs| && RefcountSeenOnUncommit(oldRefs, s, r, rpp) == 1
  }

  /** The regions of [s, e), ascending, after which their page is uncommitted. */
  function ReleasingRegions(oldRefs: seq<nat>, s: nat, e: nat, rpp: nat): (rs: seq<nat>)
    requires rpp > 0
    ensures forall i :: 0 <= i < |rs| ==> s <= rs[i] < e && ReleasesPage(oldRefs, s, rs[i], rpp)
    ensures e <= s ==> rs == []
    decreases e
  {
    if e <= s then []
    else
      var rest := ReleasingRegions(oldRefs, s, e - 1, rpp);
      if ReleasesPage(oldRefs, s, e - 1, rpp) then rest + [e - 1] else rest
  }

  /** ReleasingRegions lists every region of the range that makes its page uncommitted,
      each once, in ascending order. */
  lemma {:induction false} ReleasingRegionsExact(oldRefs: seq<nat>, s: nat, e: nat, rpp: nat)
    requires rpp > 0
    ensures var rs := ReleasingRegions(oldRefs, s, e, rpp);
      && (forall r :: s <= r < e && ReleasesPage(oldRefs, s, r, rpp) ==> r in rs)
      && (forall i, j :: 0 <= i < j < |rs| ==> rs[i] < rs[j])
    decreases e
  {
    if e > s {
      ReleasingRegionsExact(oldRefs, s, e - 1, rpp);
    }
  }

  /** Reference counts after commit_regions(s, e - s): each page gains its regions of the range. */
  function AddRegions(refs: seq<nat>, s: nat, e: nat, rpp: nat): (r: seq<nat>)
    requires rpp > 0
    ensures |r| == |refs|
    decreases e
  {
    if e <= s then refs
    else
      var q := AddRegions(refs, s, e - 1, rpp);
      var p := RegionToPage(e - 1, rpp);
      if p < |q| then q[p := q[p] + 1] else q
  }

  /** Each page gains exactly its regions of the range. */
  lemma {:induction false} AddRegionsCounts(refs: seq<nat>, s: nat, e: nat, rpp: nat)
    requires rpp > 0
    ensures forall p :: 0 <= p < |refs| ==> AddRegions(refs, s, e, rpp)[p] == refs[p] + CountOnPage(s, e, p, rpp)
    decreases e
  {
    if e > s {
      AddRegionsCounts(refs, s, e - 1, rpp);
    }
  }

  /** Reference counts after uncommit_regions(s, e - s): each region takes one
      from the count of its page. (A count already at zero, which the source
      asserts never happens, is left at zero.) */
  function RemoveRegions(refs: seq<nat>, s: nat, e: nat, rpp: nat): (r: seq<nat>)
    requires rpp > 0
    ensures |r| == |refs|
    decreases e
  {
    if e <= s then refs
    else
      var q := RemoveRegions(refs, s, e - 1, rpp);
      var p := RegionToPage(e - 1, rpp);
      if p < |q| && q[p] > 0 then q[p := q[p] - 1] else q
  }

  /** Every count covers the regions of [s, e) on its page. */
  predicate CountsCover(refs: seq<nat>, s: nat, e: nat, rpp: nat)
    requires rpp > 0
  {
    forall p :: 0 <= p < |refs| ==> refs[p] >= CountOnPage(s, e, p, rpp)
  }

  /** When every count covers the regions of the range on its page, each page
      loses exactly its regions of the range. */
  lemma {:induction false} RemoveRegionsCounts(refs: seq<nat>, s: nat, e: nat, rpp: nat)
    requires rpp > 0 && CountsCover(refs, s, e, rpp)
    ensures forall p :: 0 <= p < |refs| ==> RemoveRegions(refs, s, e, rpp)[p] == refs[p] - CountOnPage(s, e, p, rpp)
    decreases e
  {
    if e > s {
      RemovableShorter(refs, s, e - 1, e, rpp);
      RemoveRegionsCounts(refs, s, e - 1, rpp);
    }
  }

  /** RemoveRegionsCounts for the one page p. */
  lemma RemoveRegionsAt(refs: seq<nat>, s: nat, e: nat, rpp: nat, p: nat)
    requires rpp > 0 && CountsCover(refs, s, e, rpp) && p < |refs|
    ensures RemoveRegions(refs, s, e, rpp)[p] == refs[p] - CountOnPage(s, e, p, rpp)
  {
    RemoveRegionsCounts(refs, s, e, rpp);
  }

  // ----------------------------------------------------------------------
  // One region at a time: how each quantity grows by one region

  lemma SetRangeStep(bits: seq<bool>, s: nat, r: nat)
    requires s <= r < |bits|
    ensures SetRange(bits, s, r + 1) == SetRange(bits, s, r)[r := true]
  {
  }

  lemma ClearRangeStep(bits: seq<bool>, s: nat, r: nat)
    requires s <= r < |bits|
    ensures ClearRange(bits, s, r + 1) == ClearRange(bits, s, r)[r := false]
  {
  }

  /** Region r adds one to the count of its own page and to no other. */
  lemma AddRegionsStep(refs: seq<nat>, s: nat, r: nat, rpp: nat)
    requires rpp > 0 && s <= r && RegionToPage(r, rpp) < |refs|
    ensures var q := AddRegions(refs, s, r, rpp);
      AddRegions(refs, s, r + 1, rpp) == q[RegionToPage(r, rpp) := q[RegionToPage(r, rpp)] + 1]
  {
    var q := AddRegions(refs, s, r, rpp);
    var q' := AddRegions(refs, s, r + 1, rpp);
    forall p | 0 <= p < |refs|
      ensures q'[p] == q[RegionToPage(r, rpp) := q[RegionToPage(r, rpp)] + 1][p]
    {
    }
  }

  /** Every count stays large enough for a shorter range. */
  lemma RemovableShorter(refs: seq<nat>, s: nat, r: nat, e: nat, rpp: nat)
    requires rpp > 0 && r <= e
    requires forall p :: 0 <= p < |refs| ==> refs[p] >= CountOnPage(s, e, p, rpp)
    ensures forall p :: 0 <= p < |refs| ==> refs[p] >= CountOnPage(s, r, p, rpp)
  {
    forall p | 0 <= p < |refs|
      ensures refs[p] >= CountOnPage(s, r, p, rpp)
    {
      CountOnPageMonotone(s, r, e, p, rpp);
    }
  }

  /** Region r takes one from the count of its own page, which is positive. */
  lemma RemoveRegionsStep(refs: seq<nat>, s: nat, r: nat, rpp: nat)
    requires rpp > 0 && s <= r && RegionToPage(r, rpp) < |refs|
    requires forall p :: 0 <= p < |refs| ==> refs[p] >= CountOnPage(s, r + 1, p, rpp)
    ensures forall p :: 0 <= p < |refs| ==> refs[p] >= CountOnPage(s, r, p, rpp)
    ensures var q := RemoveRegions(refs, s, r, rpp);
      q[RegionToPage(r, rpp)] > 0 && RemoveRegions(refs, s, r + 1, rpp) == q[RegionToPage(r, rpp) := q[RegionToPage(r, rpp)] - 1]
  {
    RemovableShorter(refs, s, r, r + 1, rpp);
    RemoveRegionsCounts(refs, s, r, rpp);
    assert refs[RegionToPage(r, rpp)] >= CountOnPage(s, r + 1, RegionToPage(r, rpp), rpp);
  }

  lemma AllRegionsFreshStep(oldRefs: seq<nat>, s: nat, r: nat, rpp: nat)
    requires rpp > 0 && s <= r
    ensures AllRegionsFresh(oldRefs, s, r + 1, rpp) == (AllRegionsFresh(oldRefs, s, r, rpp) && CommitsPage(oldRefs, s, r, rpp))
  {
  }

  lemma PagesOfAppend(rs: seq<nat>, r: nat, rpp: nat)
    requires rpp > 0
    ensures PagesOf(rs + [r], rpp) == PagesOf(rs, rpp) + [RegionToPage(r, rpp)]
  {
  }

  /** Commit then uncommit of the same range restores every reference count. */
  lemma RefcountRoundTrip(refs: seq<nat>, s: nat, e: nat, rpp: nat)
    requires rpp > 0
    ensures RemoveRegions(AddRegions(refs, s, e, rpp), s, e, rpp) == refs
  {
    var added := AddRegions(refs, s, e, rpp);
    AddRegionsCounts(refs, s, e, rpp);
    RemoveRegionsCounts(added, s, e, rpp);
    var back := RemoveRegions(added, s, e, rpp);
    assert forall p :: 0 <= p < |refs| ==> back[p] == refs[p];
  }

  // ----------------------------------------------------------------------
  // The reference-count invariant and what it implies for one call

  /** refcount[p] is the number of committed regions on page p, and every
      committed region has its page in the table. */
  predicate RefcountsMatch(bits: seq<bool>, refs: seq<nat>, rpp: nat)
    requires rpp > 0
  {
    && (forall r :: 0 <= r < |bits| && bits[r] ==> RegionToPage(r, rpp) < |refs|)
    && (forall p :: 0 <= p < |refs| ==> refs[p] == CountSet(bits, |bits|, p, rpp))
  }

  /** Committing a clear range keeps the counts in step with the bitmap. */
  lemma RefcountsMatchAfterCommit(bits: seq<bool>, refs: seq<nat>, s: nat, e: nat, rpp: nat)
    requires rpp > 0 && s <= e <= |bits| && AllClear(bits, s, e)
    requires RefcountsMatch(bits, refs, rpp)
    requires e == s || RegionToPage(e - 1, rpp) < |refs|
    ensures RefcountsMatch(SetRange(bits, s, e), AddRegions(refs, s, e, rpp), rpp)
  {
    var bits' := SetRange(bits, s, e);
    var refs' := AddRegions(refs, s, e, rpp);
    AddRegionsCounts(refs, s, e, rpp);
    forall p | 0 <= p < |refs'|
      ensures refs'[p] == CountSet(bits', |bits'|, p, rpp)
    {
      CountSetCommitted(bits, s, e, p, rpp);
    }
    forall r | 0 <= r < |bits'| && bits'[r]
      ensures RegionToPage(r, rpp) < |refs'|
    {
      if s <= r < e {
        DivMonotone(r, e - 1, rpp);
      }
    }
  }

  /** Uncommitting a set range keeps the counts in step with the bitmap; every
      count is large enough for the regions taken from it. */
  lemma RefcountsMatchAfterUncommit(bits: seq<bool>, refs: seq<nat>, s: nat, e: nat, rpp: nat)
    requires rpp > 0 && s <= e <= |bits| && AllSet(bits, s, e)
    requires RefcountsMatch(bits, refs, rpp)
    ensures CountsCover(refs, s, e, rpp)
    ensures RefcountsMatch(ClearRange(bits, s, e), RemoveRegions(refs, s, e, rpp), rpp)
  {
    forall p | 0 <= p < |refs|
      ensures refs[p] >= CountOnPage(s, e, p, rpp)
    {
      CountSetUncommitted(bits, s, e, p, rpp);
    }
    RemoveRegionsCounts(refs, s, e, rpp);
    var bits' := ClearRange(bits, s, e);
    var refs' := RemoveRegions(refs, s, e, rpp);
    forall p | 0 <= p < |refs'|
      ensures refs'[p] == CountSet(bits', |bits'|, p, rpp)
    {
      CountSetUncommitted(bits, s, e, p, rpp);
    }
  }

  /** A page is newly committed by commit_regions(s, e - s) exactly when it
      had count zero and the range has a region on it. */
  lemma {:induction false} NewlyCommitted(oldRefs: seq<nat>, s: nat, e: nat, p: nat, rpp: nat)
    requires rpp > 0
    ensures (p < |oldRefs| && oldRefs[p] == 0 && CountOnPage(s, e, p, rpp) > 0)
            <==> p in PagesOf(CommittingRegions(oldRefs, s, e, rpp), rpp)
    decreases e
  {
    if e > s {
      NewlyCommitted(oldRefs, s, e - 1, p, rpp);
      NewlyCommittedStep(oldRefs, s, e, p, rpp);
    }
  }

  /** The step of NewlyCommitted, from [s, e-1) to [s, e). */
  lemma NewlyCommittedStep(oldRefs: seq<nat>, s: nat, e: nat, p: nat, rpp: nat)
    requires rpp > 0 && s < e
    requires (p < |oldRefs| && oldRefs[p] == 0 && CountOnPage(s, e - 1, p, rpp) > 0)
             <==> p in PagesOf(CommittingRegions(oldRefs, s, e - 1, rpp), rpp)
    ensures (p < |oldRefs| && oldRefs[p] == 0 && CountOnPage(s, e, p, rpp) > 0)
            <==> p in PagesOf(CommittingRegions(oldRefs, s, e, rpp), rpp)
  {
    var q := RegionToPage(e - 1, rpp);
    var rs := CommittingRegions(oldRefs, s, e - 1, rpp);
    var ps := PagesOf(rs, rpp);
    assert CountOnPage(s, e, p, rpp) == CountOnPage(s, e - 1, p, rpp) + (if q == p then 1 else 0);
    if CommitsPage(oldRefs, s, e - 1, rpp) {
      CommittingAppend(oldRefs, s, e, rpp, rs);
      PagesOfAppend(rs, e - 1, rpp);
      assert p in ps + [q] <==> p in ps || p == q;
    } else {
      assert CommittingRegions(oldRefs, s, e, rpp) == rs;
    }
  }

  /** With the invariant, the pages committed by one call form one ascending
      run of consecutive pages: only the first and the last page of the range
      can already be committed, because every page in between has all its
      regions in the (clear) range. So the single pretouch call over
      [first committed page, first + number committed) covers exactly the
      newly committed pages. */
  lemma {:induction false} CommittedPagesConsecutive(bits: seq<bool>, refs: seq<nat>, s: nat, e: nat, rpp: nat)
    requires rpp > 0 && s <= e <= |bits| && AllClear(bits, s, e)
    requires RefcountsMatch(bits, refs, rpp)
    requires e == s || RegionToPage(e - 1, rpp) < |refs|
    ensures PagesRun(CommittingRegions(refs, s, e, rpp), rpp)
    decreases e
  {
    if e > s {
      var r := e - 1;
      if r > s {
        DivMonotone(r - 1, r, rpp);
      }
      CommittedPagesConsecutive(bits, refs, s, r, rpp);
      CommittedPagesStep(bits, refs, s, e, rpp);
    }
  }

  /** The step of CommittedPagesConsecutive, from [s, e-1) to [s, e). */
  lemma CommittedPagesStep(bits: seq<bool>, refs: seq<nat>, s: nat, e: nat, rpp: nat)
    requires rpp > 0 && s < e <= |bits| && AllClear(bits, s, e)
    requires RefcountsMatch(bits, refs, rpp)
    requires RegionToPage(e - 1, rpp) < |refs|
    requires PagesRun(CommittingRegions(refs, s, e - 1, rpp), rpp)
    ensures PagesRun(CommittingRegions(refs, s, e, rpp), rpp)
  {
    var rs := CommittingRegions(refs, s, e - 1, rpp);
    if CommitsPage(refs, s, e - 1, rpp) {
      if |rs| > 0 {
        NextCommittedPage(bits, refs, s, e, rpp);
      }
      PagesRunAppend(rs, e - 1, rpp);
      CommittingAppend(refs, s, e, rpp, rs);
    } else {
      assert CommittingRegions(refs, s, e, rpp) == rs;
    }
  }

  /** A region that commits its page ends the list of committing regions. */
  lemma CommittingAppend(refs: seq<nat>, s: nat, e: nat, rpp: nat, rs: seq<nat>)
    requires rpp > 0 && s < e && CommitsPage(refs, s, e - 1, rpp)
    requires rs == CommittingRegions(refs, s, e - 1, rpp)
    ensures CommittingRegions(refs, s, e, rpp) == rs + [e - 1]
  {
  }

  /** The regions rs sit on consecutive pages, one region per page. */
  predicate PagesRun(rs: seq<nat>, rpp: nat)
    requires rpp > 0
  {
    forall i :: 0 <= i < |rs| ==> RegionToPage(rs[i], rpp) == RegionToPage(rs[0], rpp) + i
  }

  /** A run extended by a region on the next page is a run. */
  lemma PagesRunAppend(rs: seq<nat>, r: nat, rpp: nat)
    requires rpp > 0 && PagesRun(rs, rpp)
    requires rs != [] ==> RegionToPage(r, rpp) == RegionToPage(rs[0], rpp) + |rs|
    ensures PagesRun(rs + [r], rpp)
  {
    var rs' := rs + [r];
    forall i | 0 <= i < |rs'|
      ensures RegionToPage(rs'[i], rpp) == RegionToPage(rs'[0], rpp) + i
    {
      if i < |rs| {
        assert rs'[i] == rs[i] && rs'[0] == rs[0];
      }
    }
  }

  /** The same run, stated on the page sequence handed to the storage. */
  lemma CommittedPagesRun(bits: seq<bool>, refs: seq<nat>, s: nat, e: nat, rpp: nat, ps: seq<nat>)
    requires rpp > 0 && s <= e <= |bits| && AllClear(bits, s, e)
    requires RefcountsMatch(bits, refs, rpp)
    requires e == s || RegionToPage(e - 1, rpp) < |refs|
    requires ps == PagesOf(CommittingRegions(refs, s, e, rpp), rpp)
    ensures forall i :: 0 <= i < |ps| ==> ps[i] == ps[0] + i
  {
    CommittedPagesConsecutive(bits, refs, s, e, rpp);
  }

  /** The step of CommittedPagesConsecutive: a committing region follows the
      previous one on the very next page. */
  lemma NextCommittedPage(bits: seq<bool>, refs: seq<nat>, s: nat, e: nat, rpp: nat)
    requires rpp > 0 && s < e <= |bits| && AllClear(bits, s, e)
    requires RefcountsMatch(bits, refs, rpp)
    requires RegionToPage(e - 1, rpp) < |refs| && CommitsPage(refs, s, e - 1, rpp)
    requires var rs := CommittingRegions(refs, s, e - 1, rpp);
      |rs| > 0 && PagesRun(rs, rpp)
    ensures var rs := CommittingRegions(refs, s, e - 1, rpp);
      RegionToPage(e - 1, rpp) == RegionToPage(rs[0], rpp) + |rs|
  {
    var rs := CommittingRegions(refs, s, e - 1, rpp);
    var last := rs[|rs| - 1];
    var q := RegionToPage(e - 1, rpp);
    var pl := RegionToPage(last, rpp);
    assert pl == RegionToPage(rs[0], rpp) + |rs| - 1;
    CommittingPageAbove(refs, s, e, last, rpp);
    // No page is skipped: a page strictly between would have been committed.
    if pl + 1 < q {
      var m := SkippedPageCommits(bits, refs, s, e, last, rpp);
      InCommitting(refs, s, e - 1, m, rpp);
      assert false;
    }
  }

  /** If the page after that of region `last` lies below the page of region
      e-1, its first region is in the range and commits it. */
  lemma SkippedPageCommits(bits: seq<bool>, refs: seq<nat>, s: nat, e: nat, last: nat, rpp: nat) returns (m: nat)
    requires rpp > 0 && s <= last < e - 1 && e <= |bits| && AllClear(bits, s, e)
    requires RefcountsMatch(bits, refs, rpp)
    requires RegionToPage(e - 1, rpp) < |refs| && RegionToPage(last, rpp) + 1 < RegionToPage(e - 1, rpp)
    ensures s <= m < e - 1 && RegionToPage(m, rpp) == RegionToPage(last, rpp) + 1 && CommitsPage(refs, s, m, rpp)
  {
    var q := RegionToPage(last, rpp) + 1;
    DivMonotone(s, last, rpp);
    m := q * rpp;
    MiddlePageCommits(bits, refs, s, e, q, m, rpp);
    BlockInside(last, e - 1, q, rpp);
    PageBlock(m, q, rpp);
  }

  /** A region that commits its page is on a higher page than every earlier region of the call. */
  lemma CommittingPageAbove(refs: seq<nat>, s: nat, e: nat, r: nat, rpp: nat)
    requires rpp > 0 && s <= r < e - 1 && CommitsPage(refs, s, e - 1, rpp)
    ensures RegionToPage(r, rpp) < RegionToPage(e - 1, rpp)
  {
    DivMonotone(r, e - 2, rpp);
    DivMonotone(e - 2, e - 1, rpp);
    CountOnPageBefore(s, e - 1, rpp);
  }

  /** A committing region of [s, e) appears in CommittingRegions(s, e). */
  lemma {:induction false} InCommitting(oldRefs: seq<nat>, s: nat, e: nat, r: nat, rpp: nat)
    requires rpp > 0 && s <= r < e && CommitsPage(oldRefs, s, r, rpp)
    ensures exists j :: 0 <= j < |CommittingRegions(oldRefs, s, e, rpp)| && CommittingRegions(oldRefs, s, e, rpp)[j] == r
    decreases e
  {
    var rs := CommittingRegions(oldRefs, s, e, rpp);
    if r == e - 1 {
      assert rs[|rs| - 1] == r;
    } else {
      InCommitting(oldRefs, s, e - 1, r, rpp);
      var j :| 0 <= j < |CommittingRegions(oldRefs, s, e - 1, rpp)| && CommittingRegions(oldRefs, s, e - 1, rpp)[j] == r;
      assert rs[j] == r;
    }
  }

  /** A page q whose regions all lie strictly inside a clear range with a
      matching invariant: its first region m commits it. */
  lemma MiddlePageCommits(bits: seq<bool>, refs: seq<nat>, s: nat, e: nat, q: nat, m: nat, rpp: nat)
    requires rpp > 0 && s <= e <= |bits| && AllClear(bits, s, e)
    requires RefcountsMatch(bits, refs, rpp)
    requires e > s && RegionToPage(e - 1, rpp) < |refs|
    requires RegionToPage(s, rpp) < q < RegionToPage(e - 1, rpp) && m == q * rpp
    ensures s <= m < e && CommitsPage(refs, s, m, rpp)
  {
    BlockInside(s, e - 1, q, rpp);
    PageClear(bits, s, e, q, m, rpp);
    CountSetZero(bits, |bits|, q, rpp);
    assert refs[q] == 0;
    PageStart(q, m, rpp);
    CountOnPageBefore(s, m, rpp);
  }

  /** Every region of a page lying inside a clear range is clear. */
  lemma PageClear(bits: seq<bool>, s: nat, e: nat, q: nat, m: nat, rpp: nat)
    requires rpp > 0 && s <= e <= |bits| && AllClear(bits, s, e)
    requires m == q * rpp && s <= m && m + rpp <= e
    ensures forall i :: 0 <= i < |bits| && RegionToPage(i, rpp) == q ==> !bits[i]
  {
    forall i | 0 <= i < |bits| && RegionToPage(i, rpp) == q
      ensures !bits[i]
    {
      PageBlock(i, q, rpp);
    }
  }

  /** Region m = q * rpp is the first region of page q (q > 0). */
  lemma PageStart(q: nat, m: nat, rpp: nat)
    requires rpp > 0 && q > 0 && m == q * rpp
    ensures m > 0 && RegionToPage(m, rpp) == q && RegionToPage(m - 1, rpp) != q
  {
    PageBlock(m, q, rpp);
    PageBlock(m - 1, q, rpp);
  }

  /** The regions of a page strictly between the pages of a and b lie strictly between a and b. */
  lemma BlockInside(a: nat, b: nat, q: nat, rpp: nat)
    requires rpp > 0 && RegionToPage(a, rpp) < q < RegionToPage(b, rpp)
    ensures a < q * rpp && q * rpp + rpp <= b
  {
    DivBounds(a, rpp);
    DivBounds(b, rpp);
    MulMonotone(RegionToPage(a, rpp) + 1, q, rpp);
    MulMonotone(q + 1, RegionToPage(b, rpp), rpp);
  }

  lemma MulMonotone(x: nat, y: nat, c: nat)
    requires x <= y
    ensures x * c <= y * c
  {
  }
}
