# G1 region mapping, the HTTP/1.1 response-head parser and heap-inspection helpers

This project models three small pieces of the JDK and proves properties of them.

**G1 region-to-space mapper** (`g1_commit.dfy`, `g1_mapper.dfy`). The G1
collector splits the heap (and its auxiliary data structures) into regions.
The mapper keeps one commit bit per region and tells the page-based storage
underneath which OS pages to commit or uncommit.

- `create_mapper` picks one of two strategies by comparing the region size
  with the commit granule (page size times commit factor):
  - **larger than commit**: every region spans `pagesPerRegion` whole pages;
  - **smaller than commit**: one page is shared by `regionsPerPage` regions,
    and a reference count per page records how many of its regions are
    committed. A page is committed by the first of its regions and
    uncommitted by the last.
- `G1Mapper.G1RegionToSpaceMapper` is a class over the commit bitmap
  (`array<bool>`) and the reference counts (`array<nat>`).
- Its ghost `committedPages` is the storage's physical page state. The
  object invariant `Valid()` ties that state to the bitmap (larger strategy)
  or to the counts (smaller strategy).
- Calls into the storage, the NUMA layer, pretouch and the listener are
  appended to one ghost log per collaborator.
- `G1Commit` holds the pure side:
  - strategy choice;
  - bitmap ranges;
  - the count of committed regions on each page (`CountSet`);
  - which regions of a commit or uncommit call actually touch the storage.

  The main invariant is `RefcountsMatch`: every count equals the number of
  committed regions on its page.

**Http1HeaderParser** (`http1_text.dfy`, `http1_machine.dfy`,
`http1_head.dfy`, `http1_fields.dfy`, `http1_errors.dfy`, `http1_parser.dfy`).
This is the incremental parser of an HTTP/1.x response's status line and
header fields.

- `Http1Machine` is the state machine as pure functions:
  - one function per private method of the parser;
  - `Dispatch` for one turn of `parse`'s switch;
  - `Feed` for the whole `parse` loop over a byte sequence and a position.
- `Http1Parser.Http1HeaderParser` is the class with the parser's fields.
  Each of its methods is proved equal to the corresponding machine function
  on the old state. `Parse` is proved equal to `Feed`.
- `Http1Head` proves what a well-formed head parses to (`ParseHead`):
  - the status line and response code;
  - the table from lower-cased names to values in arrival order, with
    continuation lines folded in;
  - the accounted size.
- `Http1Errors` proves the refusals: a bad status line, a CR without LF,
  and the size limit.
- `Http1Fields` proves how one header line becomes a name and a value.

**heapInspection.hpp helpers** (`heap_inspection.dfy`, `decimal.dfy`). These
cover the column-width arithmetic of the class histogram printer, the
right-aligned number printer, and the byte counts of an object or array.

## Model

| member | source | states |
|---|---|---|
| G1Commit.SelectStrategy | src/hotspot/share/gc/g1/g1RegionToSpaceMapper.cpp:196-200 | the larger-than-commit strategy is chosen exactly when the region size is at least page size times commit factor; its pages-per-region (line 67) is at least 1 and is the floor quotient; otherwise regions-per-page (line 122) is at least 1 and is the floor quotient |
| G1Commit.RefcountEntries | src/hotspot/share/gc/g1/g1RegionToSpaceMapper.cpp:125 | the count array has one entry per page of the reservation rounded up to whole pages: it covers the reservation, and one entry fewer would not |
| G1Commit.SetRange | src/hotspot/share/gc/g1/g1RegionToSpaceMapper.cpp:86 | after `set_range(s, e)` exactly the bits in [s, e) are set and every other bit keeps its value |
| G1Commit.ClearRange | src/hotspot/share/gc/g1/g1RegionToSpaceMapper.cpp:92 | after `clear_range(s, e)` exactly the bits in [s, e) are clear and every other bit keeps its value |
| G1Commit.ClearAfterSet | src/hotspot/share/gc/g1/g1RegionToSpaceMapper.cpp:86-92 | committing a clear range and then uncommitting it restores the bitmap |
| G1Commit.SetAfterClear | src/hotspot/share/gc/g1/g1RegionToSpaceMapper.cpp:86-92 | uncommitting a set range and then committing it restores the bitmap |
| G1Commit.RegionPages | src/hotspot/share/gc/g1/g1RegionToSpaceMapper.cpp:73-74 | page p lies in the page range [start*ppr, (start+n)*ppr) exactly when its region p/ppr lies in [start, start+n) |
| G1Commit.PageBlock | src/hotspot/share/gc/g1/g1RegionToSpaceMapper.cpp:110-112 | region_idx_to_page_idx (`RegionToPage`, region over regions per page): region i maps to page q exactly when q*rpp <= i < (q+1)*rpp, so the regions of a page form one block |
| G1Commit.RegionsOnCountedPages | src/hotspot/share/gc/g1/g1RegionToSpaceMapper.cpp:44-125 | when a page holds an exact number of regions, the last of the bitmap's reserved*commitFactor/granularity regions lives on a page below the rounded-up page count, so every region has a count |
| G1Commit.CommittingRegions | src/hotspot/share/gc/g1/g1RegionToSpaceMapper.cpp:139-150 | the regions of the range that commit their page: each is in the range and found its page's count at zero, and there are none for an empty range; CommittingRegionsExact proves the list complete and ascending |
| G1Commit.ReleasingRegions | src/hotspot/share/gc/g1/g1RegionToSpaceMapper.cpp:170-176 | the regions of the range after which their page is uncommitted: each is in the range and found its page's count at one, and there are none for an empty range; ReleasingRegionsExact proves the list complete and ascending |
| G1Commit.CommittingRegionsExact | src/hotspot/share/gc/g1/g1RegionToSpaceMapper.cpp:139-150 | every region of the range that finds its page's count at zero is listed, and the list is strictly ascending, as the loop visits regions in order |
| G1Commit.ReleasingRegionsExact | src/hotspot/share/gc/g1/g1RegionToSpaceMapper.cpp:170-176 | every region of the range that finds its page's count at one is listed, and the list is strictly ascending, as the loop visits regions in order |
| G1Commit.AddRegions | src/hotspot/share/gc/g1/g1RegionToSpaceMapper.cpp:159 | the counts after commit_regions keep one entry per page; what each entry gains, exactly its regions of the range, is AddRegionsCounts |
| G1Commit.RemoveRegions | src/hotspot/share/gc/g1/g1RegionToSpaceMapper.cpp:177 | the counts after uncommit_regions keep one entry per page; what each entry loses, exactly its regions of the range when the counts cover them, is RemoveRegionsCounts |
| G1Commit.CountSetAfterSetRange | src/hotspot/share/gc/g1/g1RegionToSpaceMapper.cpp:160 | setting a clear range raises the number of set bits on page p, among the first k, by the number of range regions on p below k |
| G1Commit.CountSetCommitted | src/hotspot/share/gc/g1/g1RegionToSpaceMapper.cpp:159-160 | committing a clear range adds to each page's committed-region count exactly the number of range regions on that page |
| G1Commit.CountSetUncommitted | src/hotspot/share/gc/g1/g1RegionToSpaceMapper.cpp:177-178 | uncommitting a set range lowers each page's committed-region count by exactly the number of range regions on that page |
| G1Commit.CountSetZero | src/hotspot/share/gc/g1/g1RegionToSpaceMapper.cpp:103 | a page none of whose regions is committed has count zero, the array's default value |
| G1Commit.CountOnPageBefore | src/hotspot/share/gc/g1/g1RegionToSpaceMapper.cpp:139-143 | no earlier region of the same call lies on region r's page exactly when r is the first region of the call or its predecessor lies on another page |
| G1Commit.AddRegionsCounts | src/hotspot/share/gc/g1/g1RegionToSpaceMapper.cpp:159 | after the commit loop's increments every count is its old value plus the number of range regions on that page |
| G1Commit.RemoveRegionsCounts | src/hotspot/share/gc/g1/g1RegionToSpaceMapper.cpp:177 | when the counts cover the range, after the uncommit loop's decrements every count is its old value minus the number of range regions on that page |
| G1Commit.RefcountRoundTrip | src/hotspot/share/gc/g1/g1RegionToSpaceMapper.cpp:137-180 | uncommitting the regions a commit just counted restores every reference count |
| G1Commit.RefcountsMatchAfterCommit | src/hotspot/share/gc/g1/g1RegionToSpaceMapper.cpp:137-161 | the commit loop keeps the invariant that each count is the number of committed regions on its page |
| G1Commit.RefcountsMatchAfterUncommit | src/hotspot/share/gc/g1/g1RegionToSpaceMapper.cpp:168-180 | under that invariant the uncommit loop never decrements a zero count (the assert at line 173), and it keeps the invariant |
| G1Commit.NewlyCommitted | src/hotspot/share/gc/g1/g1RegionToSpaceMapper.cpp:143-150 | page p is committed by the call exactly when its old count is zero and the range has a region on it |
| G1Commit.SharedPageNotFresh | src/hotspot/share/gc/g1/g1RegionToSpaceMapper.cpp:142-157 | when two regions of one call share a page, the second sees a non-zero count, so the call cannot report all regions zero-filled |
| G1Commit.CommittedPagesConsecutive | src/hotspot/share/gc/g1/g1RegionToSpaceMapper.cpp:144-149 | under the count invariant, the pages a commit call commits come in ascending order with no gap |
| G1Commit.CommittedPagesRun | src/hotspot/share/gc/g1/g1RegionToSpaceMapper.cpp:162-163 | the i-th committed page is the first one plus i, so `pretouch(first_committed, num_committed)` covers exactly the newly committed pages |
| G1Mapper.LargerCommit | src/hotspot/share/gc/g1/g1RegionToSpaceMapper.cpp:73-75 | under the whole-page invariant, the page range of a clear region range is wholly uncommitted, and committing it and setting the bits keeps the invariant |
| G1Mapper.LargerUncommit | src/hotspot/share/gc/g1/g1RegionToSpaceMapper.cpp:91-92 | under the whole-page invariant, the page range of a set region range is wholly committed, and uncommitting it and clearing the bits keeps the invariant |
| G1Mapper.RegionRequests | src/hotspot/share/gc/g1/g1RegionToSpaceMapper.cpp:77-81 | one NUMA request per region in order: region i asks for its first page and pagesPerRegion pages' worth of bytes |
| G1Mapper.PageRequests | src/hotspot/share/gc/g1/g1RegionToSpaceMapper.cpp:151-155 | one NUMA request per newly committed page, for one page's bytes, naming the region that committed it; NewlyCommitted and CommitProgressOutcome tie those regions to the pages the call commits |
| G1Mapper.BackedAfterIncrement | src/hotspot/share/gc/g1/g1RegionToSpaceMapper.cpp:143-159 | committing the page when its count goes from 0 to 1, and only then, keeps "a page is committed exactly when its count is positive" |
| G1Mapper.BackedAfterDecrement | src/hotspot/share/gc/g1/g1RegionToSpaceMapper.cpp:174-177 | uncommitting the page when its count goes from 1 to 0, and only then, keeps the same invariant |
| G1Mapper.BackedDifference | src/hotspot/share/gc/g1/g1RegionToSpaceMapper.cpp:168-180 | the pages an uncommit releases are exactly those whose count fell from positive to zero |
| G1Mapper.CommitProgressStep | src/hotspot/share/gc/g1/g1RegionToSpaceMapper.cpp:137-161 | one turn of the commit loop keeps the loop's summary: storage calls and NUMA requests for exactly the newly committed pages, the first page, their number, and the zero-filled flag |
| G1Mapper.CommitRunProgress | src/hotspot/share/gc/g1/g1RegionToSpaceMapper.cpp:137-161 | after any number of turns, whatever the storage answers, the loop's variables satisfy that summary |
| G1Mapper.CommitProgressOutcome | src/hotspot/share/gc/g1/g1RegionToSpaceMapper.cpp:137-165 | at the end of the loop the storage got exactly one single-page commit per newly committed page, NUMA got one request each (Java heap only), and the flag passed to the listener is "every region found a fresh page and every storage commit was zero-filled" |
| G1Mapper.CommittedAfterCommit | src/hotspot/share/gc/g1/g1RegionToSpaceMapper.cpp:143-150 | the storage gains exactly one block of consecutive pages starting at `first_committed`, none of them committed before |
| G1Mapper.SmallerCommitOutcome | src/hotspot/share/gc/g1/g1RegionToSpaceMapper.cpp:128-165 | everything a shared-page commit call achieves: the count invariant, the storage and NUMA calls, first_committed and num_committed, the zero-filled flag, and the new committed pages |
| G1Mapper.UncommitTurn | src/hotspot/share/gc/g1/g1RegionToSpaceMapper.cpp:171-178 | one turn of the uncommit loop finds a positive count, decrements it, and uncommits the page exactly when the count was 1 |
| G1Mapper.UncommitLoopReleases | src/hotspot/share/gc/g1/g1RegionToSpaceMapper.cpp:168-180 | the uncommit loop issues exactly one single-page uncommit per page whose last committed region the call releases, in order |
| G1Mapper.G1RegionToSpaceMapper.constructor | src/hotspot/share/gc/g1/g1RegionToSpaceMapper.cpp:35-50 | given power-of-two page size, region size and commit factor: the strategy is the one create_mapper picks; the bitmap has `reserved*commitFactor/regionGranularity` bits, all clear; the smaller strategy has one zero count per page and every region's page has a count; nothing is committed, no listener, no calls yet; the object invariant holds |
| G1Mapper.G1RegionToSpaceMapper.StorageCommit | src/hotspot/share/gc/g1/g1RegionToSpaceMapper.cpp:75 | the storage commits exactly the given uncommitted pages and logs the call with its zero-filled answer |
| G1Mapper.G1RegionToSpaceMapper.StorageUncommit | src/hotspot/share/gc/g1/g1RegionToSpaceMapper.cpp:91 | the storage uncommits exactly the given committed pages and logs the call |
| G1Mapper.G1RegionToSpaceMapper.RequestMemoryOnNode | src/hotspot/share/gc/g1/g1RegionToSpaceMapper.cpp:80 | the NUMA request is logged; nothing else changes |
| G1Mapper.G1RegionToSpaceMapper.Pretouch | src/hotspot/share/gc/g1/g1RegionToSpaceMapper.cpp:84 | the pretouch range is logged; bitmap and counts unchanged |
| G1Mapper.G1RegionToSpaceMapper.FireOnCommit | src/hotspot/share/gc/g1/g1RegionToSpaceMapper.cpp:183-187 | the listener hears `on_commit(start, n, zeroFilled)` once if one is installed, and nothing otherwise |
| G1Mapper.G1RegionToSpaceMapper.CommitRegions | src/hotspot/share/gc/g1/g1RegionToSpaceMapper.cpp:72-88 | for either strategy (Larger at 72-88, Smaller at 128-166): the range's bits become set and no others change, the object invariant holds, no page is released, the listener is told once with the returned zero-filled answer. Larger: one storage commit of the range's pages, one NUMA request per region (Java heap only), one pretouch of those pages if AlwaysPreTouch. Smaller: counts rise by the regions per page; one storage commit per region in `rs`, the regions that find their page uncommitted, in order; one NUMA request per such page; one pretouch over the new block when AlwaysPreTouch and a page was committed; zero-filled exactly when every region found a fresh page and every storage commit was zero-filled |
| G1Mapper.G1RegionToSpaceMapper.UncommitRegions | src/hotspot/share/gc/g1/g1RegionToSpaceMapper.cpp:90-93 | for either strategy (Larger at 90-93, Smaller at 168-180): the range's bits become clear and no others change, the object invariant holds, no page is newly committed. Larger: one storage uncommit of the range's pages, which are exactly the pages released. Smaller: the counts covered the range and fall by its regions per page; one storage uncommit per page whose last committed region is released, in region order; a page is released exactly when its count falls from positive to zero |
| G1Mapper.G1RegionToSpaceMapper.LargerCommitRegions | src/hotspot/share/gc/g1/g1RegionToSpaceMapper.cpp:72-88 | one storage commit of numRegions*ppr pages from start*ppr, one NUMA request per region (Java heap only), one pretouch of the same range if AlwaysPreTouch, the bits set, the listener told with the storage's zero-filled answer |
| G1Mapper.G1RegionToSpaceMapper.LargerNumaLoop | src/hotspot/share/gc/g1/g1RegionToSpaceMapper.cpp:77-81 | the loop appends exactly the per-region NUMA requests |
| G1Mapper.G1RegionToSpaceMapper.LargerUncommitRegions | src/hotspot/share/gc/g1/g1RegionToSpaceMapper.cpp:90-93 | one storage uncommit of the range's pages, which are exactly the pages released, and the bits cleared |
| G1Mapper.G1RegionToSpaceMapper.SmallerCommitTurn | src/hotspot/share/gc/g1/g1RegionToSpaceMapper.cpp:138-160 | one region of the commit loop: its bit set, its page's count incremented, and the loop variables advanced as the specification function says |
| G1Mapper.G1RegionToSpaceMapper.SmallerCommitLoop | src/hotspot/share/gc/g1/g1RegionToSpaceMapper.cpp:137-161 | after the loop the bits, counts, logs and loop variables are the specification's functions of the old state and the storage's answers |
| G1Mapper.G1RegionToSpaceMapper.SmallerCommitPages | src/hotspot/share/gc/g1/g1RegionToSpaceMapper.cpp:131-161 | the storage side of the shared-page commit: one single-page commit per newly committed page, NUMA requests for them, the committed pages grow by exactly one consecutive block |
| G1Mapper.G1RegionToSpaceMapper.SmallerCommitRegions | src/hotspot/share/gc/g1/g1RegionToSpaceMapper.cpp:128-166 | the shared-page commit call: the above, then one pretouch over the new block when AlwaysPreTouch and at least one page was committed, and the listener told "all zero-filled" exactly when every region found a fresh page and the storage said zero-filled each time |
| G1Mapper.G1RegionToSpaceMapper.SmallerUncommitTurn | src/hotspot/share/gc/g1/g1RegionToSpaceMapper.cpp:170-178 | one region of the uncommit loop: bit cleared, count decremented, storage uncommit exactly when the count was 1 |
| G1Mapper.G1RegionToSpaceMapper.SmallerUncommitLoop | src/hotspot/share/gc/g1/g1RegionToSpaceMapper.cpp:169-179 | after the loop the bits, counts and storage log are the specification's functions of the old state, and the page-backing invariant holds |
| G1Mapper.G1RegionToSpaceMapper.SmallerUncommitRegions | src/hotspot/share/gc/g1/g1RegionToSpaceMapper.cpp:168-180 | the shared-page uncommit call: bits cleared, counts fall by the regions per page, a page is uncommitted exactly when its last committed region is released, one call per such page in order |
| Http1Machine.CheckMaxHeaderSize | src/java.net.http/share/classes/jdk/internal/net/http/Http1HeaderParser.java:216-222 | the check passes exactly when the limit is not positive or size + sz + 32 is within it; otherwise ProtocolException; FeedWithin and AddWithin draw the size bound of a whole parse from it |
| Http1Machine.NewSize | src/java.net.http/share/classes/jdk/internal/net/http/Http1HeaderParser.java:223-230 | the new size is size + name + value + 32; it is refused exactly when the limit is positive and that sum exceeds it; FeedWithin and AddWithin draw the size bound of a whole parse from it |
| Http1Machine.Dispatch | src/java.net.http/share/classes/jdk/internal/net/http/Http1HeaderParser.java:121-160 | one turn of the switch never moves the position back or past the end, and a turn that reads nothing moves to a state of lower rank (so the loop ends) |
| Http1Machine.Feed | src/java.net.http/share/classes/jdk/internal/net/http/Http1HeaderParser.java:118-163 | the loop of parse from position i never moves back and never passes the end of the buffer; the rest of what it guarantees is FeedFacts |
| Http1Machine.ReadResumeStatusLine | src/java.net.http/share/classes/jdk/internal/net/http/Http1HeaderParser.java:177-193 | the status-line scan never moves back or past the end of the buffer; what it gathers and where it stops are ScanStatusText, its size check ScanPastLimit |
| Http1Machine.ReadStatusLineFeed | src/java.net.http/share/classes/jdk/internal/net/http/Http1HeaderParser.java:195-214 | reads one character after a CR and none after a LF; the lines it accepts are StatusPhase, those it refuses StatusLineRefused and StatusCRWithoutLF |
| Http1Machine.MaybeStartHeaders | src/java.net.http/share/classes/jdk/internal/net/http/Http1HeaderParser.java:232-245 | reads exactly one character; a CR or LF beginning the empty line is EmptyLineAfterStatus, a CR not followed by LF EmptyLineCRWithoutLF |
| Http1Machine.MaybeEndHeaders | src/java.net.http/share/classes/jdk/internal/net/http/Http1HeaderParser.java:247-258 | reads one character after a CR and none after a LF; finishing with no headers is EndNoFields, a CR without LF EmptyLineCRWithoutLF |
| Http1Machine.ReadResumeHeader | src/java.net.http/share/classes/jdk/internal/net/http/Http1HeaderParser.java:260-282 | the header scan never moves back or past the end of the buffer; what it gathers (HT as SP) and where it stops are ScanHeaderText |
| Http1Machine.AddHeaderFromString | src/java.net.http/share/classes/jdk/internal/net/http/Http1HeaderParser.java:284-296 | a line with no name changes nothing; otherwise it is refused with a ProtocolException exactly when newSize refuses the name and value, and if accepted the size grows by name + value + 32 and the value is appended under the lower-cased name, all other names unchanged; the state and pending text are untouched |
| Http1Machine.Flush | src/java.net.http/share/classes/jdk/internal/net/http/Http1HeaderParser.java:322-328 | with no pending text nothing happens; otherwise the pending text is cleared and added as a header; the state is kept, the size never shrinks, and the only error is a ProtocolException |
| Http1Machine.ResumeOrLF | src/java.net.http/share/classes/jdk/internal/net/http/Http1HeaderParser.java:298-316 | reads one character after a CR and none after a LF; the LF that ends the line is FeedAfterCR, white space continuing the text WhiteAfterLine |
| Http1Machine.ResumeOrSecondCR | src/java.net.http/share/classes/jdk/internal/net/http/Http1HeaderParser.java:318-353 | reads exactly one character; a folded line is FoldLine, a new header NewLine, the end of the head EndAfterFields and EmptyLineAfterLine |
| Http1Machine.ResumeOrEndHeaders | src/java.net.http/share/classes/jdk/internal/net/http/Http1HeaderParser.java:355-365 | reads exactly one character; a LF finishing the head is EndAfterFields, anything else EndCRWithoutLF |
| Http1Machine.DispatchFacts | src/java.net.http/share/classes/jdk/internal/net/http/Http1HeaderParser.java:121-160 | a turn never lowers the accounted size, and a turn that throws has not finished |
| Http1Machine.FeedFacts | src/java.net.http/share/classes/jdk/internal/net/http/Http1HeaderParser.java:118-163 | parse stops without an exception only when it has finished or has consumed the whole buffer; an exception never comes with FINISHED; the size never shrinks; a finished parser reads nothing |
| Http1Machine.FeedWithin | src/java.net.http/share/classes/jdk/internal/net/http/Http1HeaderParser.java:216-230 | if parse returns normally, the accounted size, including the text still gathered, is within a positive limit |
| Http1Machine.FreshWithin | src/java.net.http/share/classes/jdk/internal/net/http/Http1HeaderParser.java:216-230 | from a fresh parser, a normal return leaves the size within a positive limit |
| Http1Machine.EmptyLineAfterStatus | src/java.net.http/share/classes/jdk/internal/net/http/Http1HeaderParser.java:232-258 | an empty line (CRLF or LF) right after the status line finishes the head with an empty table |
| Http1Machine.EmptyLineAfterLine | src/java.net.http/share/classes/jdk/internal/net/http/Http1HeaderParser.java:318-365 | an empty line after a field line flushes the pending field and finishes the head |
| Http1Machine.FeedAfterCR | src/java.net.http/share/classes/jdk/internal/net/http/Http1HeaderParser.java:298-305 | a CR ending a field line followed by LF moves to HEADER_FOUND_CR_LF |
| Http1Machine.WhiteAfterLine | src/java.net.http/share/classes/jdk/internal/net/http/Http1HeaderParser.java:336-340 | a line starting with SP or HT continues the pending field with one space |
| Http1Machine.StepError | src/java.net.http/share/classes/jdk/internal/net/http/Http1HeaderParser.java:118-163 | an exception in one turn is the outcome of the whole parse call, fields and position as that turn left them |
| Http1Head.ScanStatusText | src/java.net.http/share/classes/jdk/internal/net/http/Http1HeaderParser.java:177-193 | the status-line loop gathers every character up to the first CR or LF and moves to the matching state, within the limit |
| Http1Head.ScanHeaderText | src/java.net.http/share/classes/jdk/internal/net/http/Http1HeaderParser.java:260-282 | the header loop gathers every character up to the first CR or LF with each HT turned into SP |
| Http1Head.StatusPhase | src/java.net.http/share/classes/jdk/internal/net/http/Http1HeaderParser.java:195-214 | an accepted status line records the line and, as its code, the integer parseInt reads from characters 9 to 11 (three digits, or a sign and two digits), accounts 32 plus its length, and clears the gathered text |
| Http1Head.FoldLine | src/java.net.http/share/classes/jdk/internal/net/http/Http1HeaderParser.java:336-340 | a continuation line is appended, HT as SP, to the pending field |
| Http1Head.NewLine | src/java.net.http/share/classes/jdk/internal/net/http/Http1HeaderParser.java:341-352 | a line not starting with white space flushes the pending field into the table and becomes the new pending field |
| Http1Head.AddWithin | src/java.net.http/share/classes/jdk/internal/net/http/Http1HeaderParser.java:284-296 | within the limit, adding a header string raises the size by its accounted amount and adds the field, with no exception |
| Http1Head.EndNoFields | src/java.net.http/share/classes/jdk/internal/net/http/Http1HeaderParser.java:247-258 | a head with no field lines finishes with the status line and an empty header table |
| Http1Head.EndAfterFields | src/java.net.http/share/classes/jdk/internal/net/http/Http1HeaderParser.java:318-365 | after field lines, the empty line (CRLF or LF) flushes the last field and finishes |
| Http1Head.ParseHead | src/java.net.http/share/classes/jdk/internal/net/http/Http1HeaderParser.java:118-163 | a fresh parser fed a status line accepted by lines 205-211, field lines and an empty line, all within the size limit, stops right after the empty line, FINISHED and without an exception; it holds the status line, its code, and the table of lower-cased names to trimmed values in arrival order, with continuation lines folded in; the size is 32 plus the line plus 32 plus name and value per field |
| Http1Fields.TrimEmpty | src/java.net.http/share/classes/jdk/internal/net/http/Http1HeaderParser.java:289-290 | a trimmed name is empty exactly when every character is at or below SP |
| Http1Fields.TrimPadded | src/java.net.http/share/classes/jdk/internal/net/http/Http1HeaderParser.java:289-292 | trim removes exactly the padding around text that starts and ends above SP |
| Http1Fields.IndexOfAt | src/java.net.http/share/classes/jdk/internal/net/http/Http1HeaderParser.java:286 | indexOf finds the first ':' |
| Http1Fields.HeaderFieldDropped | src/java.net.http/share/classes/jdk/internal/net/http/Http1HeaderParser.java:284-291 | a header string is dropped exactly when it has no ':' or the text before the first ':' is blank |
| Http1Fields.HeaderFieldRoundTrip | src/java.net.http/share/classes/jdk/internal/net/http/Http1HeaderParser.java:284-296 | a name without ':' and a value, each padded with white space around the ':', give back that name and value |
| Http1Fields.AddFieldLookup | src/java.net.http/share/classes/jdk/internal/net/http/Http1HeaderParser.java:294-295 | adding a field appends its value to the list under its lower-cased name and changes no other list; a name is present exactly when it was before or is the new field's |
| Http1Fields.CollectMapValues | src/java.net.http/share/classes/jdk/internal/net/http/Http1HeaderParser.java:294-295 | the table built from a sequence of header strings holds, under each name, the values of exactly the strings with that lower-cased name, in order; a name is present exactly when some string has it |
| Http1Fields.ParsedValues | src/java.net.http/share/classes/jdk/internal/net/http/Http1HeaderParser.java:294-295 | for a well-formed head, the headers looked up under any name are the values of the unfolded field lines with that name, in arrival order |
| Http1Errors.StatusLineRefused | src/java.net.http/share/classes/jdk/internal/net/http/Http1HeaderParser.java:195-211 | a status line not starting with "HTTP/1." or shorter than 12 characters ends parse with ProtocolException right after the line; one whose characters 9 to 11 are no integer ends it with NumberFormatException; in both cases the line is recorded and accounted |
| Http1Errors.StatusCRWithoutLF | src/java.net.http/share/classes/jdk/internal/net/http/Http1HeaderParser.java:195-200 | a CR after the status line followed by anything but LF ends parse with ProtocolException after that character |
| Http1Errors.EmptyLineCRWithoutLF | src/java.net.http/share/classes/jdk/internal/net/http/Http1HeaderParser.java:247-257 | a CR right after an accepted status line followed by anything but LF ends parse with ProtocolException |
| Http1Errors.EndCRWithoutLF | src/java.net.http/share/classes/jdk/internal/net/http/Http1HeaderParser.java:355-364 | after field lines, CR followed by anything but LF ends parse with ProtocolException, the last field already flushed into the table |
| Http1Errors.ScanPastLimit | src/java.net.http/share/classes/jdk/internal/net/http/Http1HeaderParser.java:177-187 | the status-line character that carries the count past what the limit leaves raises ProtocolException, with everything before it gathered |
| Http1Errors.LimitReach | src/java.net.http/share/classes/jdk/internal/net/http/Http1HeaderParser.java:178 | the number of status-line characters a fresh parser takes under a positive limit is the first count past `max - 32` |
| Http1Errors.StatusLinePastLimit | src/java.net.http/share/classes/jdk/internal/net/http/Http1HeaderParser.java:177-187 | a status line with no CR or LF in its first LimitReach(max) characters ends parse with ProtocolException right there |
| Http1Text.ToChar | src/java.net.http/share/classes/jdk/internal/net/http/Http1HeaderParser.java:181 | `(char)` on a Java byte keeps the low sixteen bits of its sign extension: ASCII for non-negative bytes, 0xFF80 to 0xFFFF for negative ones |
| Http1Text.IndexOfFacts | src/java.net.http/share/classes/jdk/internal/net/http/Http1HeaderParser.java:286 | indexOf is -1 exactly when the character is absent, and otherwise the first position holding it |
| Http1Text.TrimMiddle | src/java.net.http/share/classes/jdk/internal/net/http/Http1HeaderParser.java:289-292 | String.trim keeps a contiguous middle part and drops only characters at or below SP on either side |
| Http1Text.TrimEnds | src/java.net.http/share/classes/jdk/internal/net/http/Http1HeaderParser.java:289-292 | a non-empty trimmed string starts and ends above SP |
| Http1Text.LowerIdempotent | src/java.net.http/share/classes/jdk/internal/net/http/Http1HeaderParser.java:294 | lower-casing a name keeps its length and a second lower-casing changes nothing |
| Http1Text.ParseThreeChars | src/java.net.http/share/classes/jdk/internal/net/http/Http1HeaderParser.java:211 | Integer.parseInt of the three code characters succeeds exactly for three digits or a sign and two digits, and gives the number they spell |
| Http1Parser.Http1HeaderParser.constructor | src/java.net.http/share/classes/jdk/internal/net/http/Http1HeaderParser.java:49-54 | a new parser is in INITIAL with empty text, no status line, no headers, an empty table and size 0 |
| Http1Parser.Http1HeaderParser.Parse | src/java.net.http/share/classes/jdk/internal/net/http/Http1HeaderParser.java:118-163 | the fields, buffer position and exception after parse are those of `Feed` from the old state; it returns true exactly when no exception was raised and the state is FINISHED |
| Http1Parser.Http1HeaderParser.Step | src/java.net.http/share/classes/jdk/internal/net/http/Http1HeaderParser.java:122-159 | one turn of the switch equals `Dispatch` on the old state |
| Http1Parser.Http1HeaderParser.CanContinueParsing | src/java.net.http/share/classes/jdk/internal/net/http/Http1HeaderParser.java:165-175 | false when FINISHED, true in the three states that need no input, otherwise whether the buffer has bytes left |
| Http1Parser.Http1HeaderParser.ReadResumeStatusLine | src/java.net.http/share/classes/jdk/internal/net/http/Http1HeaderParser.java:177-193 | the loop that checks the size only once the count passes what the limit leaves equals the machine's per-character check |
| Http1Parser.Http1HeaderParser.ReadStatusLineFeed | src/java.net.http/share/classes/jdk/internal/net/http/Http1HeaderParser.java:195-214 | equals the machine's status-line acceptance on the old state |
| Http1Parser.Http1HeaderParser.CheckMaxHeaderSize | src/java.net.http/share/classes/jdk/internal/net/http/Http1HeaderParser.java:216-222 | raises exactly what `Http1Machine.CheckMaxHeaderSize` says for the current size |
| Http1Parser.Http1HeaderParser.NewSize | src/java.net.http/share/classes/jdk/internal/net/http/Http1HeaderParser.java:223-230 | returns exactly what `Http1Machine.NewSize` says |
| Http1Parser.Http1HeaderParser.MaybeStartHeaders | src/java.net.http/share/classes/jdk/internal/net/http/Http1HeaderParser.java:232-245 | equals the machine's first character after the status line |
| Http1Parser.Http1HeaderParser.MaybeEndHeaders | src/java.net.http/share/classes/jdk/internal/net/http/Http1HeaderParser.java:247-258 | equals the machine's empty line after the status line |
| Http1Parser.Http1HeaderParser.ReadResumeHeader | src/java.net.http/share/classes/jdk/internal/net/http/Http1HeaderParser.java:260-282 | the header loop with the deferred size check equals the machine's per-character header scan |
| Http1Parser.Http1HeaderParser.AddHeaderFromString | src/java.net.http/share/classes/jdk/internal/net/http/Http1HeaderParser.java:284-296 | size and table change as the machine's `AddHeaderFromString` says, or the size exception is raised |
| Http1Parser.Http1HeaderParser.ResumeOrLF | src/java.net.http/share/classes/jdk/internal/net/http/Http1HeaderParser.java:298-316 | equals the machine's step after a field line's CR or LF |
| Http1Parser.Http1HeaderParser.ResumeOrSecondCR | src/java.net.http/share/classes/jdk/internal/net/http/Http1HeaderParser.java:318-353 | equals the machine's step at the start of a line after a field line |
| Http1Parser.Http1HeaderParser.FlushPending | src/java.net.http/share/classes/jdk/internal/net/http/Http1HeaderParser.java:322-328 | the pending field, if any, goes to the table and the gathered text is cleared, as the machine's `Flush` says |
| Http1Parser.Http1HeaderParser.ResumeOrEndHeaders | src/java.net.http/share/classes/jdk/internal/net/http/Http1HeaderParser.java:355-365 | equals the machine's LF after the final CR |
| HeapInspection.DigitCountBounds | src/hotspot/share/memory/heapInspection.hpp:319-329 | n has DigitCount(n) decimal digits: n < 10^w and, for n > 0, 10^(w-1) <= n |
| HeapInspection.DigitCountUnique | src/hotspot/share/memory/heapInspection.hpp:319-329 | any w with those bounds is DigitCount(n), so the width is the decimal length |
| HeapInspection.JulongWidth | src/hotspot/share/memory/heapInspection.hpp:319-329 | the division loop returns the number of decimal digits of n, 1 for zero |
| HeapInspection.ColWidth | src/hotspot/share/memory/heapInspection.hpp:331-339 | the column is one wider than the larger of the number's width and the name's length |
| HeapInspection.DigitsFacts | src/hotspot/share/memory/heapInspection.hpp:316 | the decimal text of n has DigitCount(n) digits, spells n, and has no leading zero |
| HeapInspection.PrintJulong | src/hotspot/share/memory/heapInspection.hpp:311-317 | the output is width minus the number's width in spaces (none when that is not positive) followed by the decimal digits, so it is right-aligned in max(width, digits) characters |
| HeapInspection.Count | src/hotspot/share/memory/heapInspection.hpp:166-168 | HeapWordSize times the object's size in words, 0 for NULL; also count_bytes at lines 295-297; CountArrayAsObject relates it to CountArray |
| HeapInspection.CountArray | src/hotspot/share/memory/heapInspection.hpp:170-180 | 0 for NULL and for an empty (shared) array, otherwise HeapWordSize times its size; also count_bytes_array at lines 299-309; CountArrayAsObject relates it to Count |
| HeapInspection.CountArrayAsObject | src/hotspot/share/memory/heapInspection.hpp:166-180 | the array count equals the object count except that empty arrays count 0, so it never exceeds it |

## Left out

- Storage, NUMA, pretouch and the listener are modelled as ghost logs, one
  per collaborator. The order of calls across two different collaborators is
  not recorded.
- The zero-filled answer of a storage commit is an unconstrained value.
  G1PageBasedVirtualSpace is not part of this model.
- Committing an already committed page, and uncommitting an uncommitted one,
  are preconditions of the storage calls. They stand for the storage's own
  requirements; G1PageBasedVirtualSpace is not part of this model. The
  source asserts only the region bits: all clear before a shared-page commit
  (line 138) and all set before a shared-page uncommit (line 170). The larger
  strategy (lines 72-93) asserts nothing. Its methods require the same "all
  bits clear" and "all bits set", and the object invariant, which ties the
  bits to the storage, turns these into the storage's conditions.
- The pretouch work gang and its concurrency are left out: pretouch is one
  logged request.
- `MemTracker::record_virtual_memory_type` (line 49) is left out; it records
  bookkeeping only.
- G1BiasedMappedArray's address biasing is left out: the counts are indexed
  by page number from 0.
- `uint`/`size_t` wrap-around is not modelled; indices are unbounded
  naturals. The reservation is bounded by NoPage.
- AlwaysPreTouch is a constructor parameter rather than a global flag.
- `set_mapping_changed_listener` lives in the mapper's header, which is not
  part of this model. `SetMappingChangedListener` installs a listener flag.
- The jdk.http.maxHeaderSize property is a constructor parameter. The default
  value, 384 * 1024, is `DefaultMaxHeaderSize`.
- `HttpHeaders.of(privateMap, ACCEPT_ALL)` is the table itself. The table is
  not set to null on finishing, because the head is complete by then and no
  step reads it again.
- `currentStateMessage`, the exception message texts and `requireNonNull` are
  left out. Exceptions are `ProtocolError` or `NumberFormatError`.
- The InternalError of the switch's default branch is left out: every state
  is covered.
- ByteBuffer is a byte sequence and a position. Nothing else about buffers is
  modelled.
- `toLowerCase(Locale.US)` and `trim` are modelled on the characters a byte
  widens to: ASCII and 0xFF80 to 0xFFFF. On those, only 'A' to 'Z' change
  case.
- Integer.parseInt is modelled on those characters only; digits from other
  scripts cannot occur.
- `long size` overflow is not modelled: the size is an unbounded integer.
  Under a positive limit the size stays within it (`FeedWithin`). With no
  limit, Java's wrap-around past 2^63 is not modelled.
- The machine's status-line and header scans check the size after every
  character. The source checks it only once the count passes `max`
  (lines 184 and 278). The class methods keep the source's form, and each is
  proved to give the machine's outcome.
- HeapInspection.ColWidth: requires the name to be at most 2^31 - 1
  characters long, because `(int)strlen` on a longer name is not modelled.
  At exactly 2^31 - 1 characters, C's `w + 1` (line 338) overflows int,
  which is undefined behaviour; the model returns 2^31 there instead.
- HeapInspection.Count: requires the byte count to fit an int (`CountFits`).
  The int overflow on huge objects is not modelled.
- HeapInspection.CountArray: same `CountFits` requirement as Count.
- The output stream of print_julong is the returned string.
- HeapWordSize is fixed at 8, as on 64-bit platforms.
- The rest of heapInspection.hpp is not modelled: the class declarations of
  KlassInfoEntry, KlassInfoBucket, KlassInfoTable, KlassHierarchy and
  KlassInfoHisto, their constructors and inline accessors (lines 202-214,
  229-233, 259 and 284), and the column-table declarations. They are
  outside the counting and width helpers this model covers.
- phasetype.hpp and the library's tests are not part of this model.
- G1Mapper.G1RegionToSpaceMapper.constructor: requires the commit factor
  to be a power of two, which every caller's is. Then a page holds an exact
  number of regions, and the count array covers every region's page. The
  source leaves this implicit: with any other commit factor, the last
  regions could map to a page past the end of the count array.
- `SharingScenario`, with its steps `ShareCommittedPage` and
  `ReleaseSharedPage`, is a worked example with no contract: committing and
  uncommitting regions that share a page.
