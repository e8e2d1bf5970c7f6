# Verification of the espbot file system, JSON reader and HTTP sender

A Dafny model of three parts of the espbot firmware, with proofs of what they are for.

**The SPIFFS file system.** Flash is an array of lookup entries and an array of pages; a write can
only clear bits. `Image.Rep` says that the flash represents a *directory*: which objects exist,
where their index and data pages are, and what they hold. Lookup entry, header and flags of a page
agree; every live page belongs to one object in the place its header names; index slots beyond the
file and bytes beyond the end of its last page are erased. `Core.Inv` is the invariant of the
allocator: free entries are a suffix of each block, the free cursor, and exact counters.
`Descriptors.FdsOk` says that open descriptors agree with the directory. `Hydro.Ready` and
`Files.Settled` put these together for the time between two calls. Page size, block size and index
lengths are symbolic (`Layout.Geo`).

Every operation is a method over the mounted file system (`State.Spiffs`) that follows the C code
and is proved against the directory: reading, overwriting, appending, truncating, removing,
creating, opening, renaming, the write cache, garbage collection, mounting, formatting and the
consistency check. The main results are stated for the meaning of the flash and not for single
pages: a write is overwrite-and-extend on the bytes of one file and nothing else, unless it runs out
of pages in the way told first below; a garbage collection changes nothing anyone can see; a run of
cached writes and a flush is the same as writing at once; a run of any calls does to the users' view
what the calls do to a set of named files (`Sessions`); what the checker does to a healthy file system
is told exactly; and, since every check of a page passes on flash that represents a directory, a
healthy file system fails a write only for lack of space (`State.Spacious`).

What an error leaves behind is part of every contract. `Objects.Torn` says that index pages of one
object on flash may be out of date and its descriptors wrong about its size, everything else being in
order; `Objects.Survived` that this is the object that was written to, or that no page at all is free
and it is some one object. So a call that is refused for space leaves every other file as it was
unless the flash is completely full. What it may leave of the file itself is not always the bytes it
did not overwrite: an object has a set of *lost* pages (`Image.Obj`), which an overwrite has deleted
without a new page for them, and every contract says when this set grows and that nobody else's does.
`Stock` counts how many pages can be had.

Nor does a contract only say what an error leaves. Every call that may fail for space has a condition
on the state before it under which it does not: the pages it takes, counted exactly, are *assured*
(`Collect.Assured`), which they are when they are in stock and there is room already, or when wholly
deleted blocks make room. Two blocks more in stock than a call takes are always enough
(`Hydro.StockGrants`, `WriteCache.StockCalls`), and for runs of calls a bound on the pages they may take
(`WriteRuns.RunMost`, `Sessions.Total`) is enough when the run begins. What the collector empties, and when
it gives up, is told exactly (`Collect.CollectBest`, `Collect.GcCheck`).

Below it are the flash driver (`FlashDriver`) and the read cache (`ReadCache`), each with its own
invariant: a cached read is what is on the flash.

**The JSON reader.** `JsonGrammar` defines the language of the reader as trees and their printed
form, with a plain recursive descent parser. `JsonReader` follows the code: a validator that cuts
nested values out by counting brackets and checks them on their own, and cursor walkers that skip
nested values in the same way. Validator and grammar accept the same texts, and the walkers
enumerate exactly what the grammar says is there. `OtaConfig` prints a configuration and reads it
back.

**The HTTP sender.** `SendSteps` is a machine over the callbacks, `Sender` the program with its two
circular queues (`Ring`), proved step by step against the machine. The theorems are about all runs.

`dafny verify dfyconfig.toml` checks the project.

Some parameters stand for choices made elsewhere: `room` is the number of candidates the collector
has room for, `slot` a cache slot or descriptor that is free, if any, `hash` a name hash.

## Where the code does less than its documentation says

Each of these is proved as an exact condition or pinned down in a contract; `Samples` has given flash
on which some of them happen, with methods that make it.

- An overwrite that covers a data page as a whole does not look at the result of the allocation. When
  there is no page to have, it deletes the old page all the same, puts whatever page number is at hand
  into the index, and goes on; so the page is lost, and the call may still succeed. Lost are exactly the
  pages that are covered as a whole at a time when there is no page to have, none when as many pages are
  in stock as the write needs, and of a write to one page, when there is no need to collect, this one
  exactly if no page at all is free (`Modify.ObjectModify`). For a run of whole pages it is told exactly
  which are lost and whether the call succeeds (`Modify.ModifyLoop`, `Samples.LostPage`). The write cache,
  `Rename.Close`, `WriteRuns.WriteRun` and `Sessions.Session` tell when this happens on their way, and
  the page check finds something to repair when it comes to the page that the index names instead
  (`Checker.LostIsFound`).
- A read drops the result of the flush it begins with. When the flush fails, the write page is given
  up and the read goes on, so that it succeeds with old content and the cached bytes are gone
  (`WriteCache.HydroRead`, `WriteCache.FlushLoses`, `Samples.LostWrite`).
- A write of no bytes inside a file stores the work buffer as the header of the file, unless the
  write page of the file takes it (`WriteCache.Write`, `Hydro.ModifyNothing`). Right after a read that
  is the header of the file that was read (`Samples.ReadThenWriteNothing`, `Samples.WipedHeader`).
- An append to an empty file that gets no page after room was made leaves a size of 0 in the header,
  exactly if there is no page to have (`Append.AppendGranted`); the field stays 0 whatever is
  written over it (`Append.HollowStays`), and such flash represents no directory
  (`Append.HollowIsNone`, `Samples.HollowAppend`).
- An append that fails right behind a new index page leaves one that names nothing, and the next
  append makes it a second time (`Append.IndexTwice`, `Append.TwinsAreNone`).
- A write that gets no page to store its index page leaves the cursor of its descriptor unset; the
  contracts exclude that descriptor (`Objects.Survived`).
- Truncating while opening leaves a write page that begins at offset 0 or 1. The first is what the
  file then holds; the second begins behind the end of the file, and the next flush of it is refused
  (`Files.Open`, `Samples.StrandedPage`, `Hydro.HydroWrite`).
- Renaming a file without stored content sends its descriptors back to the start (`Rename.NewName`),
  and reading a new file before its first flush ends at once (`WriteCache.HydroRead`).
- The index check is documented to find index pages without a header, but passes over every index
  page with ordinary flags before it looks for one (`Checker.IndexCheck`).
- The page check counts page numbers in 16 bits. When a range of a healthy file system reaches 0xFFFF,
  the check takes free slots for references and repairs what is right, or, when no slot is free, starts
  over from page 0 and may never end (`Checker.HealthyRanges`, `Checker.EmptyLoops`,
  `Checker.EmptyFileRepairs`).
- The erase counters wrap at 0x8000, but the scan takes them for wrapped only when they are more than
  0x7FFF apart (`Mount.EraseCount`).
- A write through the read cache keeps it right only under the condition of `ReadCache.Cache.Wr`. The
  writes of the file system go over erased or equal cells, clear bits (`Image.NorPageOverlay`), or
  delete a page; the exception is the size behind a hollowed header (`Append.HollowStays`).
- The bounds check of the flash driver rounds down (`FlashDriver.BoundsExact`,
  `FlashDriver.SlackReached`).
- The validator accepts anything behind an empty top-level container (`JsonEntries.AcceptedTexts`), and
  numbers that no int holds (`OtaConfig.TooBig`).
- A second response on a connection that still has bytes queued can overtake them; exactly when is
  `SendSteps.OrderKept`. A full split queue cuts the message being served (`SendSteps.CheckLoses`).
- The length computed for a printed configuration is up to eight characters short
  (`OtaConfig.StringifiedLength`, `OtaConfig.Overruns`), and so is the buffer a configuration is saved
  from when its path is long (`OtaConfig.SavedLength`). A text that fills a buffer exactly is copied
  without a terminator (`JsonReader.JsonObject.GetStr`).

## Model

| member | source | states |
|---|---|---|
| `Layout.PageOfEntry` | src/include/spiffs_nucleus.h:204-227 | every lookup entry stands for one page, which is no lookup page, and the block and entry macros lead back from it |
| `Layout.EntryOfPage` | src/include/spiffs_nucleus.h:195-227 | every page that is no lookup page comes from exactly one entry: the macros are inverse to each other |
| `Layout.PixOfMacro` | src/include/spiffs_nucleus.h:204-227 | the page of an entry, defined by counting, is what the macro computes |
| `Layout.FirstClosed` | src/include/spiffs_nucleus.h:258-259 | the span index an index page starts at, defined by adding up slots, is what the macro computes |
| `Layout.SlotLaw` | src/include/spiffs_nucleus.h:252-259 | index page and slot of a data span index name that span index back, within the page |
| `Layout.SlotUnique` | src/include/spiffs_nucleus.h:252-259 | no other slot of any index page stands for the same span index |
| `Nor.AndOnes` | src/spiffs/spiffs_nucleus.c:753-809 | a write to an erased cell stores the written value |
| `Image.NorPageOverlay` | src/spiffs/spiffs_nucleus.c:753-809 | a page written over cells that are erased or equal holds exactly the written page: the AND of the flash loses nothing |
| `Image.PutDataStep` | src/spiffs/spiffs_nucleus.c:1459-1658 | replacing one data page of a file, its index being rewritten, leads to the directory with that page and content replaced; all other objects are represented as before |
| `Image.LoseDataStep` | src/spiffs/spiffs_nucleus.c:1556-1617 | deleting a full data page with nothing to take its place leads to the directory in which exactly this page of the file is lost, whatever page number the index names then; all other objects are represented as before |
| `Image.LostIsGone` | src/spiffs/spiffs_nucleus.c:1556-1617 | no page on flash claims to be a lost one |
| `Image.MoveIxStep` | src/spiffs/spiffs_nucleus.c:812-873 | moving an index page brings it up to date and changes nothing but its place |
| `Image.AppendDataStep` | src/spiffs/spiffs_nucleus.c:1212-1453 | a new data page behind the last leads to the longer file |
| `Image.GrowTailStep` | src/spiffs/spiffs_nucleus.c:1212-1453 | writing behind the end of the last page in place leads to the longer file |
| `Image.DropDataStep` | src/spiffs/spiffs_nucleus.c:1727-1963 | deleting the last data page leads to the shorter file |
| `Image.DropIxStep` | src/spiffs/spiffs_nucleus.c:1727-1963 | an index page that names nothing any more can go |
| `Image.DoomStep` | src/spiffs/spiffs_nucleus.c:1727-1963 | marking a header as being deleted touches nothing else |
| `Image.CreateStep` | src/spiffs/spiffs_nucleus.c:912-972 | a header page on a free page adds one empty object |
| `Image.RemoveStep` | src/spiffs/spiffs_nucleus.c:1727-1963 | deleting the header of an object without data removes exactly that object |
| `Image.RenameStep` | src/spiffs/spiffs_nucleus.c:979-1038 | a name may change while its header is about to be rewritten |
| `Image.EraseStep` | src/spiffs/spiffs_gc.c:9-27 | erasing deleted pages takes nothing from any object |
| `Core.Occupy` | src/spiffs/spiffs_nucleus.c:753-809 | writing a picked entry keeps the free-suffix order of every block, the cursor rule and all counters |
| `Core.Delete` | src/spiffs/spiffs_nucleus.c:876-908 | deleting a live page keeps them, moving one page from the allocated to the deleted count |
| `Core.Erase` | src/spiffs/spiffs_nucleus.c:226-262 | erasing a block without live pages keeps them; a block whose entry 0 was free already is counted twice |
| `Search.FindEntry` | src/spiffs/spiffs_nucleus.c:124-223 | the wrapping search returns the first match in cyclic order from any start, and fails only if nothing matches |
| `Alloc.EraseBlock` | src/spiffs/spiffs_nucleus.c:226-262 | exactly the block is erased, its erase count stored and the counter advanced, and the allocator invariant holds |
| `Candidates.CounterCycle` | src/spiffs/spiffs_nucleus.c:256-262 | the erase counter goes up by one at each erase and starts again at 0 after 0x7FFF: any number of erases later it is the sum modulo 0x8000 |
| `Alloc.GcQuick` | src/spiffs/spiffs_gc.c:33-105 | with no free page tolerated: the first wholly deleted block is erased; if there is none, nothing changes and none exists |
| `Alloc.FindFree` | src/spiffs/spiffs_nucleus.c:449-480 | a free page is picked, first in its block, exactly if there is one to have: any free page during collection, otherwise only while two blocks are free, or one and a wholly deleted one; a failure changes nothing but erased deleted pages |
| `Alloc.PageAllocate` | src/spiffs/spiffs_nucleus.c:753-809 | exactly if there is a page to have, one free page becomes the new page with header, data and finalization, and nothing else changes but deleted pages that were erased |
| `Alloc.PageDelete` | src/spiffs/spiffs_nucleus.c:876-908 | entry and header flags of exactly that page are cleared |
| `Alloc.PageMove` | src/spiffs/spiffs_nucleus.c:812-873 | exactly if there is a page to have, the page appears on a free page, from itself or from the work buffer, and its old place is deleted; otherwise it stays where it is |
| `Alloc.FindIdAndSpan` | src/spiffs/spiffs_nucleus.c:501-562 | the lookup by id and span finds a finalized page of that id and span that is not the excluded one, and fails only if there is none |
| `Stock.StockGives` | src/spiffs/spiffs_nucleus.c:449-480 | as long as anything is in stock, a page is to be had |
| `Stock.StockTaken` | src/spiffs/spiffs_nucleus.c:449-480 | and every page that is picked takes at most one from the stock, so the stock bounds how many can be had, in every state |
| `Stock.StraightTaken` | src/spiffs/spiffs_nucleus.c:449-480 | when the free blocks follow the free cursor, it takes exactly one |
| `Stock.TrackedGives` | src/spiffs/spiffs_nucleus.c:449-480 | and as long as no block is wholly deleted, a page is to be had exactly while the stock lasts |
| `Descriptors.EventAfterMove` | src/spiffs/spiffs_nucleus.c:1041-1115 | after the event no open descriptor remembers the old place of a moved index page |
| `Descriptors.EventAfterNewIx` | src/spiffs/spiffs_nucleus.c:1041-1115 | nor a wrong place after a new index page |
| `Descriptors.EventAfterDropIx` | src/spiffs/spiffs_nucleus.c:1041-1115 | nor the place of a deleted one |
| `Descriptors.EventKeepsUser` | src/spiffs/spiffs_nucleus.c:1041-1115 | an event that announces no size, or the size the file has, changes nothing a user of a descriptor sees |
| `Descriptors.EventSetsSize` | src/spiffs/spiffs_nucleus.c:1041-1115 | after a header event every descriptor of the object has its size |
| `Events.CacheRelease` | src/spiffs/spiffs_cache.c:268-284 | no open descriptor refers to the released cache page |
| `Events.ObjectEvent` | src/spiffs/spiffs_nucleus.c:1041-1115 | every descriptor of the object is updated, others are untouched, and exactly the write pages that the event takes are given up, with every reference to them |
| `Objects.DataCheckOk` | src/spiffs/spiffs_nucleus.c:4-30 | a data page of an object passes the check that guards its use |
| `Objects.IndexCheckOk` | src/spiffs/spiffs_nucleus.c:33-58 | so does an index page |
| `Objects.DataCheckExact` | src/spiffs/spiffs_nucleus.c:4-30 | and what passes is a data page of some object with that span index, whichever object was asked for: a page passes if and only if it is one |
| `Objects.IndexCheckExact` | src/spiffs/spiffs_nucleus.c:33-58 | likewise for index pages |
| `Objects.MatchesIx` | src/spiffs/spiffs_nucleus.c:501-524 | the lookup matches exactly the index page the directory names |
| `Objects.MatchesData` | src/spiffs/spiffs_nucleus.c:501-524 | and exactly the data page |
| `Objects.FindIx` | src/spiffs/spiffs_nucleus.c:527-562 | an index page is found wherever the search starts, if and only if the object has it and is not being deleted |
| `Objects.StoreIx` | src/spiffs/spiffs_nucleus.c:812-873 | storing an index page moves it and tells every descriptor; nothing a user sees changes; without a page for it nothing has changed at all |
| `Objects.UpdateIndexHdr` | src/spiffs/spiffs_nucleus.c:979-1038 | the same for the header page of a file with content, with its size or name put in |
| `Gc.FindPart` | src/spiffs/spiffs_gc.c:377-604 | the first state finds the next part of a file with data in the block, or shows that there is none |
| `Gc.CleanPart` | src/spiffs/spiffs_gc.c:377-604 | the second state moves all data pages of the part out of the block and stores its index page; meaning and descriptors are kept and free pages decrease |
| `Gc.MoveIndices` | src/spiffs/spiffs_gc.c:377-604 | the third state leaves no live index page in the block |
| `Gc.GcClean` | src/spiffs/spiffs_gc.c:377-604 | terminates; whatever comes of it, every object has its name and bytes and no user of a descriptor has noticed; on success the block holds no live page; it fails only when no page at all is free, and never while the free pages outside the block cover a budget for the pages in it; after a failure at most one index page on flash is out of date |
| `Gc.BudgetEnough` | src/spiffs/spiffs_gc.c:377-604 | twice as many free pages outside the block as are in use or free in it are enough |
| `Gc.GainMove` | src/spiffs/spiffs_gc.c:377-604 | a page moved out of a block leaves what emptying it gains, the free pages and the deleted ones in it, as it is; an index page stored from elsewhere takes one off it |
| `Candidates.ScanIsComplete` | src/spiffs/spiffs_gc.c:267-295 | stopping at the first free entry still counts every deleted and used page of a block |
| `Candidates.Insert` | src/spiffs/spiffs_gc.c:316-336 | insertion keeps the table sorted by score, earlier blocks first, each block once, the last falling out |
| `Candidates.AgeIsErases` | src/spiffs/spiffs_gc.c:305-310 | a block's age is the number of erases since its own, and 0x7FFF more than that once the counter has started again |
| `Candidates.OlderIsOlder` | src/spiffs/spiffs_gc.c:305-310 | so of two blocks that were erased before the counter was where it is, the one erased longer ago is the older one, on either side of the point where it starts again |
| `Candidates.ScoreCounts` | src/spiffs/spiffs_gc.c:267-315 | the score is five times the deleted pages of the block less its pages in use, and fifty times its age unless pages have run out, counted over the whole block |
| `Candidates.FindCandidate` | src/spiffs/spiffs_gc.c:236-345 | the table holds the blocks to be collected first, in order: a block goes before another if five times its surplus of deleted pages, its shortage of pages in use and, unless pages have run out, fifty times its surplus of age add up to more than nothing, or to nothing and it has the lower number; every block left out comes after all of them |
| `Candidates.EarlierIsBetter` | src/spiffs/spiffs_gc.c:236-345 | of two blocks that differ in one respect only, the one with more deleted pages, with fewer pages in use, or, unless pages have run out, erased longer ago is the earlier candidate |
| `Candidates.TopIsBest` | src/spiffs/spiffs_gc.c:236-345 | no block scores higher than the first candidate, and no earlier block as high |
| `Collect.PageStats` | src/spiffs/spiffs_gc.c:199-233 | the deleted pages of the block are counted off exactly |
| `Collect.CollectBlock` | src/spiffs/spiffs_gc.c:154-169 | cleaning, counting off and erasing a block keeps every object and descriptor, whether it succeeds or not; it fails only when no page is free; when it succeeds every page of the block is free and its erase count the newest, and the estimate of free pages has grown by the pages that were deleted in it, but for the index pages that had to be stored; with nothing to move it is by all of them, and nothing else has changed |
| `Collect.CollectBest` | src/spiffs/spiffs_gc.c:144-169 | a run empties the block that no other one is to be collected before, in the state before it: with what that gains told as for `Collect.CollectBlock`; it can fail only on a block with pages in use for which the free pages outside are too few |
| `Collect.GcCheck` | src/spiffs/spiffs_gc.c:109-196 | making room for a write keeps every object, descriptor and cache page, whether it succeeds or not, and terminates; it leaves flash, directory and descriptors in agreement unless no page at all is free; a request that even the deleted pages make no room for touches nothing, and one for which there is room collects nothing; otherwise it goes on emptying the best block until there is room, and gives up only after a run that gained nothing, after five runs, or on a block that could not be emptied; when some number of wholly deleted blocks that go before all others make room, it succeeds; and with pages assured on the state before, it succeeds and has them |
| `Collect.StockIsQuiet` | src/spiffs/spiffs_gc.c:109-131 | with more in stock than two blocks and what the request takes there is room without collecting |
| `Collect.QuietMeans` | src/spiffs/spiffs_gc.c:109-121 | there is room without collecting when more than three blocks count as free and the free pages, those of two blocks aside, hold more than the request |
| `Collect.HopelessMeans` | src/spiffs/spiffs_gc.c:123-131 | there is no hope when the free and the deleted pages together, those of two blocks aside, hold fewer |
| `Modify.GrantedRoom` | src/spiffs/spiffs_nucleus.c:1459-1482 | a write that has been granted room finds free pages for its data and one page more, besides those of two blocks |
| `GcRuns.EstimateIsFree` | src/spiffs/spiffs_gc.c:119-131 | the estimate of free pages that the collector works with is the number of free pages, less those of two blocks |
| `GcRuns.RipeRun` | src/spiffs/spiffs_gc.c:142-182 | a run on a state in which wholly deleted blocks go before all others empties one of them, gains all its pages, and leaves the others before all the rest |
| `GcRuns.PromiseKept` | src/spiffs/spiffs_gc.c:142-182 | so when k of them make room, there is room after at most k runs, and no run before that is the last, gains nothing, or fails |
| `Modify.LocateIndex` | src/spiffs/spiffs_nucleus.c:1521-1534 | a descriptor's cursor hint and a search of the lookup tables give the same index page |
| `Modify.ReplaceData` | src/spiffs/spiffs_nucleus.c:1552-1617 | a data page is replaced by a new one with its piece put in; without a page to have, a page of which part is to be kept stays, and one that is replaced as a whole is deleted and lost |
| `Modify.OverwritePage` | src/spiffs/spiffs_nucleus.c:1552-1617 | the same with descriptors and work buffer: a page is lost if and only if it is replaced as a whole and there is no page to have |
| `Modify.ModifyTurn` | src/spiffs/spiffs_nucleus.c:1484-1623 | one turn of the overwrite loop puts its piece into the file or loses the page, exactly if there is no page to have once the index page is in the work buffer |
| `Modify.ModifyLoop` | src/spiffs/spiffs_nucleus.c:1484-1658 | the lost pages of the file are exactly those that are replaced as a whole at a time when there is no page to have; with as many pages in stock as the write needs, none is; and for a run of whole pages with the free blocks behind the cursor it is told exactly which are lost and whether the call succeeds all the same |
| `Modify.ObjectModify` | src/spiffs/spiffs_nucleus.c:1459-1658 | the bytes of the file are overwritten across any number of data and index pages, but for pages that are lost, which are exactly told; a write that covers no whole page loses none, and a write to one page, when there is no need to collect, loses it exactly if it covers it and no page at all is free; after an error it is the first bytes of the data that are put over the file; names and bytes of other objects and what users of descriptors see are kept in every case; flash and directory agree or at most this object is torn, unless no page at all is free; with as many pages assured on the state before as it touches data and index pages, it succeeds and loses none |
| `Read.ObjectRead` | src/spiffs/spiffs_nucleus.c:1966-2056 | reading what the descriptor takes the file to hold gives exactly its bytes and leaves the last index page it needed in the work buffer, if flash and descriptor are sound and no lost page is among those it reads; in no case does it change more than the cursor |
| `Append.AppendNew` | src/spiffs/spiffs_nucleus.c:1346-1376 | a full or first page is followed by a new data page |
| `Append.AppendFill` | src/spiffs/spiffs_nucleus.c:1346-1376 | a part-filled last page is filled up in place |
| `Append.ObjectAppend` | src/spiffs/spiffs_nucleus.c:1212-1453 | the data ends up behind the file, across data and index pages; after an error it is the first bytes of the data; everything else keeps its meaning in every case; an append behind the start of an empty file is refused with the error of a free slot; with as many pages assured on the state before as it takes, new data pages, new index pages and stored ones counted exactly, it succeeds, and takes no more |
| `Append.AppendPieces` | src/spiffs/spiffs_nucleus.c:1236-1420 | the loop stores every piece as long as the pages that are still to come, told exactly at every turn, are in stock |
| `Append.AppendGranted` | src/spiffs/spiffs_nucleus.c:1212-1453 | once room has been made, an append to an empty file either stores something, which is exactly if there is a page to have, or hollows the header |
| `Append.StoreNothing` | src/spiffs/spiffs_nucleus.c:1425-1442 | an append to an empty file that gets no page leaves a size field of 0 in its header |
| `Append.HollowStays` | src/spiffs/spiffs_nucleus.c:1425-1442 | a size field of 0 stays 0 whatever is written over it |
| `Append.HollowIsNone` | src/spiffs/spiffs_nucleus.c:1425-1442 | flash with such a header represents no directory |
| `Append.IndexTwice` | src/spiffs/spiffs_nucleus.c:1283-1312 | an append to a file that an earlier failed append has left with a spare index page makes that index page a second time |
| `Append.TwinsAreNone` | src/spiffs/spiffs_nucleus.c:1283-1312 | flash with the same index page twice represents no directory |
| `Hydro.HydroWrite` | src/spiffs/spiffs_hydrogen.c:435-455 | a write refines overwrite-and-extend: the first bytes of the buffer, on success all of them, are put over the file at their landing place, but for pages that are lost, which only happens where the part within the file covers them, and is told exactly; other objects and descriptors are untouched in every case; it fails only for lack of space; flash and directory agree or at most this object is torn, unless no page at all is free; a write that even the deleted pages make no room for touches nothing; when the pages it takes are assured on the state before, it succeeds and loses none |
| `Hydro.StockGrants` | src/spiffs/spiffs_hydrogen.c:435-455 | the pages a write takes are assured when they are in stock with two blocks more |
| `Hydro.WriteAtMost` | src/spiffs/spiffs_hydrogen.c:435-455 | no write of n bytes takes more than eight pages and three for each page the bytes make, whatever the file and the offset |
| `Hydro.HeaderExact` | src/spiffs/spiffs_nucleus.c:1459-1655 | storing a page as header of an object represents the directory if and only if it is the header of that object |
| `Hydro.HeaderOnFlash` | src/spiffs/spiffs_nucleus.c:1459-1655 | the header of an object is what its header page on flash holds |
| `Hydro.ModifyNothing` | src/spiffs/spiffs_nucleus.c:1459-1655 | a write of no bytes within a file stores whatever the work buffer holds as its header, exactly if that looks like a header and there is a page to have; the file is kept if and only if that was its header |
| `Truncate.CutTurn` | src/spiffs/spiffs_nucleus.c:1727-1963 | one turn deletes one data page, and an index page that names nothing any more |
| `Truncate.RemoveObject` | src/spiffs/spiffs_nucleus.c:1727-1963 | removal cannot fail: every page of the object is deleted, no other page changes, descriptors on it are closed and all others untouched, and exactly the write pages of the object that a descriptor refers to are dropped |
| `Truncate.ClearObject` | src/spiffs/spiffs_nucleus.c:1727-1963 | truncation to nothing leaves an empty object of the same name, its descriptors at the start, and drops exactly its write pages that begin at offset 2 or behind it; a file without stored content is left alone; every other object is as it was, whether it succeeds or not; with as many pages assured as the file has index pages it succeeds |
| `FreeId.CompactScan` | src/spiffs/spiffs_nucleus.c:2099-2130 | the table counts, for each group of ids, the object headers in it |
| `FreeId.SelectGroup` | src/spiffs/spiffs_nucleus.c:2171-2185 | the group with the lowest count is chosen |
| `FreeId.BitmapScan` | src/spiffs/spiffs_nucleus.c:2066-2096 | a bit is set exactly for the ids in use, unless the name is taken |
| `FreeId.FirstClear` | src/spiffs/spiffs_nucleus.c:2155-2168 | the lowest clear bit |
| `FreeId.FindFreeObjId` | src/spiffs/spiffs_nucleus.c:2133-2225 | terminates; the id belongs to no object, through either branch; it reports full only when every id it could return is in use and the name is not taken, and a conflict only when the name is taken |
| `WriteCache.Dump` | src/spiffs/spiffs_hydrogen.c:509-525 | writing back a write page makes the file what its users have written, but for pages that are lost; when that fails, the page is given up all the same, and the file has its first bytes; it loses nothing when the write page covers no whole data page of the file, or there are pages enough in stock; when the pages it takes are assured, it succeeds |
| `WriteCache.Write` | src/spiffs/spiffs_hydrogen.c:458-595 | unless a page is lost, what users of the object see is what they saw with the buffer put over it, in all three dump cases and without cache; the descriptor moves on; whether a page is lost shows, and none is when neither the write page nor the write covers one; users of other objects see no change, whether it succeeds or not; writing nothing is told for every place where it is harmless, and what it stores otherwise; a small write always succeeds without touching flash or directory when the write page takes it, or there is no write page and a slot is free, and that page then holds exactly the piece at its place; in all other cases it succeeds and loses nothing when the pages that the old write page and the piece take are assured on the state before |
| `WriteCache.StockCalls` | src/spiffs/spiffs_hydrogen.c:458-595 | which they are when they are in stock with two blocks more |
| `WriteCache.Flush` | src/spiffs/spiffs_hydrogen.c:802-833 | after a flush the file holds what its users have written, but for pages that are lost, of which it tells; after one that fails, the write page is gone and its first bytes are in the file; users of other objects see no change; it succeeds when nothing is cached, or the pages that it takes are assured on the state before |
| `WriteCache.FlushLoses` | src/spiffs/spiffs_hydrogen.c:818-826 | pages that are lost aside, a failed flush keeps what has been written if and only if the bytes it did not store change nothing, so never when the write page reaches beyond the stored file |
| `WriteCache.HydroRead` | src/spiffs/spiffs_hydrogen.c:370-422 | a read goes on whatever came of its flush: it gives what is on flash then, from where the descriptor is and as far as that goes, which is what has been written if the flush succeeds and otherwise what it stored of it, as long as it comes upon no lost page; a file without stored content counts as ended; the flush succeeds when the pages it takes are assured |
| `WriteRuns.WriteRun` | src/spiffs/spiffs_hydrogen.c:458-595 | any run of writes through any cached descriptors of one object, and a flush, leave what the same writes give when each is carried out at once, unless a call fails or loses a page; in any case other objects keep what they hold and their users notice nothing; with the pages that the writes may take in stock when the run begins, and two blocks more, no call fails and no page is lost |
| `Files.FindByName` | src/spiffs/spiffs_nucleus.c:1691-1723 | the header of the file of that name is found wherever the search starts, and the search fails only if there is none |
| `Files.NameUnique` | src/spiffs/spiffs_nucleus.c:1691-1723 | names being unique, the answer does not depend on where the search starts |
| `Files.ObjectCreate` | src/spiffs/spiffs_nucleus.c:912-972 | one object more, empty and of that name; every other object and every descriptor as it was, whether it succeeds or not; after a failure everything agrees unless no page at all is free; when there is no need to collect it succeeds exactly if a page is free, and whenever one is assured |
| `Files.PadReads` | src/spiffs/spiffs_nucleus.c:912-972 | a stored path reads back |
| `Files.NamesTell` | src/spiffs/spiffs_nucleus.c:912-972 | so two paths are stored as the same name exactly if they are the same |
| `Files.Open` | src/spiffs/spiffs_hydrogen.c:209-288 | the descriptor is open at the start of the file of that name; each error code has its exact cause; opening without truncation a file that exists always succeeds; other files hold what they held, cached or not, and users of other descriptors notice nothing but the truncation, whether it succeeds or not; the write cache fits the files afterwards exactly if a truncation did not strand a write page at offset 1, and what the truncated file then holds is told; creating succeeds as in `Files.Creat`, and truncating when as many pages are assured as the file has index pages |
| `Files.Creat` | src/spiffs/spiffs_hydrogen.c:184-207 | one more empty file of that name; a conflict is reported exactly when the name is taken; when it is not, the call fails without a free id, and with one succeeds whenever a page is assured, and, when there is no need to collect, exactly if a page is free; other files, cached writes and descriptors are as they were in every case |
| `Files.Remove` | src/spiffs/spiffs_hydrogen.c:649-690 | succeeds exactly if the file exists; then it is gone with all its pages on flash and its write pages, its descriptors are closed, and what other files hold and other descriptors see is unchanged; otherwise nothing has changed |
| `Rename.NewName` | src/spiffs/spiffs_nucleus.c:979-1038 | exactly if there is a page to have, the name changes and nothing else does; offsets stay, but a file without stored content sends its descriptors back to its start and drops write pages that begin at offset 2 or behind it |
| `Rename.RenameFile` | src/spiffs/spiffs_hydrogen.c:873-927 | the file has the new name and every file what it held, cached or not; a name that is taken is refused; with names and descriptor in order it succeeds exactly if there is a page to have, and a failure changes nothing; anything in stock is enough |
| `Rename.Close` | src/spiffs/spiffs_hydrogen.c:852-871 | what was written and is cached is stored before the descriptor is closed; when that fails the descriptor stays open and the rest of it is lost; pages of the file that are lost on the way are told of; it succeeds when the pages for it are assured |
| `Sessions.Session` | src/spiffs/spiffs_hydrogen.c:184-927 | any run of creating, opening with and without truncation, writing, reading, flushing, closing, removing and renaming, up to the first call that fails or costs a file a page: what users see of files and descriptors is what the calls do to a set of named files, one after the other; the call that ends the run leaves every other file and user alone; no call succeeds that something the user can see stands in the way of, and a run ends only there, at a call that is not one of those it may consist of, at a read of a file whose content is all in the cache, or when the calls may take more pages than were in stock when it began, two blocks aside |
| `Sessions.FileStays` | src/spiffs/spiffs_hydrogen.c:184-927 | a run that does not truncate a file, write to it, remove or rename it leaves its name and content alone |
| `Sessions.NamesUnique` | src/spiffs/spiffs_hydrogen.c:184-927 | names stay unique in every run |
| `Sessions.ReadAfterWrite` | src/spiffs/spiffs_hydrogen.c:370-595 | what is written through one descriptor is what another one at that place reads next |
| `Samples.LostWrite` | src/spiffs/spiffs_hydrogen.c:393-395 | on a full file system a read succeeds with the old content, and the bytes that were in the write cache are gone |
| `Samples.CrammedGood` | src/spiffs/spiffs_hydrogen.c:802-833 | that file system is in order before, and even the deleted pages make no room for the write page |
| `Samples.ReadThenWriteNothing` | src/spiffs/spiffs_nucleus.c:1459-1655 | a write of no bytes inside a file right after a read gives the file the header of the file that was read, if that is what the read looked at last, and keeps it exactly if it is the same file; otherwise it is refused |
| `Samples.WipedHeader` | src/spiffs/spiffs_nucleus.c:1459-1655 | on a file system with two small files this destroys one of them |
| `Samples.StrandedPage` | src/spiffs/spiffs_hydrogen.c:268-278 | a file and a write page in order, of which a truncation would strand the page |
| `Samples.LostPage` | src/spiffs/spiffs_nucleus.c:1556-1617 | six pages are overwritten where five are to be had: the last is lost, and the call fails or succeeds depending on whether its page shared a block with the header or with the fifth page |
| `Samples.MakeLong` | src/spiffs/spiffs_nucleus.c:1556-1617 | there is such a file system, of either kind |
| `Samples.HollowAppend` | src/spiffs/spiffs_nucleus.c:1425-1442 | an append that hollows a header |
| `Mount.CountEntries` | src/spiffs/spiffs_nucleus.c:348-444 | the scan visits every entry once: free blocks, live and deleted pages are counted exactly |
| `Mount.EraseCount` | src/spiffs/spiffs_nucleus.c:381-405 | the erase counter goes on one above the greatest, or one above the least when they are more than 0x7FFF apart; as long as no counter is above 0x7FFF no wrap is seen |
| `Mount.ObjLuScan` | src/spiffs/spiffs_nucleus.c:348-444 | the counters are rebuilt exactly |
| `Mount.MountFs` | src/spiffs/spiffs_hydrogen.c:71-153 | a mounted file system has the objects its flash represents and exact counters, and its erase counter goes on from those of the blocks |
| `Mount.ReadyIsClean` | src/spiffs/spiffs_hydrogen.c:71-153 | flash left by a mounted file system can be mounted again |
| `Mount.FormatFs` | src/spiffs/spiffs_hydrogen.c:30-60 | every page of every block is erased, whatever the flash held, and every erase count is 0 |
| `Mount.FormatAndMount` | src/spiffs/spiffs_hydrogen.c:30-153 | a fresh file system is ready and empty, all its blocks are free, its erase counter is 1, and its stock is one page more than the pages of all blocks but two |
| `Checker.LookupCheck` | src/spiffs/spiffs_check.c:179-507 | the lookup check finds something to repair exactly when an entry and the header of its page disagree |
| `Checker.IndexCheck` | src/spiffs/spiffs_check.c:891-980 | the index check looks further at exactly the index pages with other flags than a page in use; whether their header exists plays no part |
| `Checker.HealthyEntries` | src/spiffs/spiffs_check.c:179-456 | on flash that represents a directory all entries and headers agree and all index pages have ordinary flags |
| `Checker.EntryTold` | src/spiffs/spiffs_check.c:179-456 | on such flash any other value of any one entry would be found by the lookup check |
| `Checker.OrdinaryExact` | src/spiffs/spiffs_check.c:891-980 | the index pages the index check looks at further are exactly the headers of objects that are being deleted |
| `Checker.Mark` | src/spiffs/spiffs_check.c:555-570 | a mark changes one bit of the bitmap |
| `Checker.VisitRef` | src/spiffs/spiffs_check.c:597-715 | a reference is accepted exactly as far as it is valid, names the right page, and is the first to name it |
| `Checker.BuildBitmap` | src/spiffs/spiffs_check.c:529-723 | the bitmap of a range holds use, reference and index marks of every page |
| `Checker.CheckBitmap` | src/spiffs/spiffs_check.c:725-740 | the pass over the bitmap stops exactly at a page in use that is neither referenced nor an index page |
| `Checker.CheckRange` | src/spiffs/spiffs_check.c:522-861 | a range is left alone exactly if every reference into it is right and unique and every page in use is an index page or referenced |
| `Checker.HealthyRange` | src/spiffs/spiffs_check.c:522-861 | flash that represents a directory of which no page is lost has only such ranges, as long as page numbers fit |
| `Checker.LostIsFound` | src/spiffs/spiffs_check.c:522-861 | a range with the page that an index names in place of a lost one is not left alone |
| `Checker.RangeExact` | src/spiffs/spiffs_check.c:597-604 | a range that reaches page number 0xFFFF takes a free slot for a reference: then healthy flash is left alone exactly if no slot is free |
| `Checker.PageCheck` | src/spiffs/spiffs_check.c:522-861 | with page numbers of 16 bits: it ends without a repair, stops at something to repair, or never ends, exactly as the sequence of its ranges says |
| `Checker.HealthyRanges` | src/spiffs/spiffs_check.c:522-861 | for healthy flash: it ends without a repair exactly if all ranges fit, or no slot is free and the offset gets past the end on a later round; it repairs what is right exactly if some range does not fit and a slot is free; otherwise it never ends |
| `Checker.EvenRanges` | src/spiffs/spiffs_check.c:522-861 | for ranges whose length divides 0x10000 it ends without a repair exactly if all ranges fit, which is if the pages and one range more stay within 0x10000 |
| `Checker.EmptyLoops` | src/spiffs/spiffs_check.c:522-861 | on a nearly full range of page numbers the check of an empty file system never ends |
| `Checker.EmptyFileRepairs` | src/spiffs/spiffs_check.c:597-604 | and with one empty file it repairs what is right |
| `Checker.CheckFs` | src/spiffs/spiffs_hydrogen.c:1099-1121 | what the whole check of a healthy file system comes to, under exact conditions; when it ends untouched the counters are rebuilt |
| `FlashDriver.EspWrite` | src/espbot/espbot_flash_functions.cpp:98-208 | at any address and length each byte of the range becomes the AND of old and new, and no other byte changes |
| `FlashDriver.EspErase` | src/espbot/espbot_flash_functions.cpp:211-262 | exactly the sectors that the range overlaps are erased |
| `FlashDriver.BoundsSlack` | src/espbot/espbot_flash_functions.cpp:98-115 | the bounds check lets at most 6 bytes pass behind the end, and none for aligned requests |
| `FlashDriver.BoundsExact` | src/espbot/espbot_flash_functions.cpp:98-115 | exactly which accepted requests end behind the end |
| `FlashDriver.SlackReached` | src/espbot/espbot_flash_functions.cpp:98-115 | seven bytes at the last address pass and end 6 bytes behind it |
| `ReadCache.Cache.Get` | src/spiffs/spiffs_cache.c:14-30 | a hit is the copy of that page; a miss means there is none |
| `ReadCache.Cache.RemoveOldest` | src/spiffs/spiffs_cache.c:62-90 | only if no slot is free a copy goes, one that was not used for the longest time, and nothing else changes; write pages stay |
| `ReadCache.Cache.Rd` | src/spiffs/spiffs_cache.c:123-182 | a read gives what is on the flash, cached or not; a copy of the page that is there is marked as used, and otherwise one is made in the first free slot, for which an oldest copy goes if none is free, but not by second level lookup functions |
| `ReadCache.ReadIsCached` | src/spiffs/spiffs_cache.c:123-182 | so a page that has been read has a copy, unless second level lookup functions have read it first, or every slot is a write page, and at most one copy of another page has made way for it, an oldest one, only if no slot was free |
| `ReadCache.UpdatedAgrees` | src/spiffs/spiffs_cache.c:184-223 | a copy updated along with the flash stays right exactly when the write only clears bits |
| `ReadCache.BypassedAgrees` | src/spiffs/spiffs_cache.c:184-223 | a copy that is by-passed stays right exactly when the write changes nothing |
| `ReadCache.Cache.Wr` | src/spiffs/spiffs_cache.c:184-223 | the flash takes the write in every case; the cache agrees with it afterwards if and only if the page has no copy, or the copy is dropped, or one of the two conditions holds; the slots are told exactly |
| `ReadCache.Cache.EraseAndDrop` | src/spiffs/spiffs_gc.c:9-27 | erasing a block and dropping its pages restores agreement; no other slot changes |
| `Ring.Queue.Push` | src/include/espbot_queue.hpp:116-130 | the circular array behaves as a sequence: push appends, and refuses exactly when full |
| `Ring.Queue.Pop` | src/include/espbot_queue.hpp:132-144 | pop removes the oldest, and refuses exactly when empty |
| `Ring.Queue.Front` | src/include/espbot_queue.hpp:90-99 | the oldest element |
| `SendSteps.ResponseAdds` | src/espbot/espbot_http.cpp:382-450 | a response on a clear connection adds header and message at the end of its stream, and leaves other streams alone |
| `SendSteps.SplitKeeps` | src/espbot/espbot_http.cpp:454-537 | cutting the next chunk off a long message changes no stream |
| `SendSteps.CheckKeeps` | src/espbot/espbot_http.cpp:194-266 | a check moves bytes forward without changing any stream |
| `SendSteps.StreamsInOrder` | src/espbot/espbot_http.cpp:194-597 | in every run in which nothing was dropped, what a connection was handed is a prefix of its responses, and all of them once it has nothing queued |
| `SendSteps.NeverStalls` | src/espbot/espbot_http.cpp:194-372 | no run leaves bytes queued without a sent callback or a check on its way |
| `SendSteps.OrderKept` | src/espbot/espbot_http.cpp:318-450 | a response keeps its place for every header and message if and only if its connection has no message being split and the header cannot overtake queued bytes |
| `SendSteps.CheckLoses` | src/espbot/espbot_http.cpp:194-266 | exactly when a check drops bytes, whatever the connections do: the server is down with bytes queued, a connection is gone or refuses, or a queue it needs is full |
| `SendSteps.ResponseLoses` | src/espbot/espbot_http.cpp:382-450 | exactly when a response drops bytes |
| `SendSteps.PacketsFit` | src/espbot/espbot_http.cpp:318-597 | in every run whose headers are no longer than a chunk, no packet handed to a connection and no piece that waits for one is longer than that |
| `SendSteps.DrainDelivers` | src/espbot/espbot_http.cpp:194-285 | sent callbacks and the checks they post empty both queues and deliver every stream in full |
| `Sender.Http.SendBuffer` | src/espbot/espbot_http.cpp:318-372 | the program step is the step of the machine |
| `Sender.Http.HttpSend` | src/espbot/espbot_http.cpp:542-597 | likewise for splitting a message; the machine sends one chunk of it and queues the rest |
| `Sender.Http.SendRemainingMsg` | src/espbot/espbot_http.cpp:454-537 | likewise for the rest of a message |
| `Sender.Http.Response` | src/espbot/espbot_http.cpp:382-450 | likewise for a response |
| `Sender.Http.SentCb` | src/espbot/espbot_http.cpp:268-285 | likewise for the sent callback |
| `Sender.Http.CheckPendingSend` | src/espbot/espbot_http.cpp:194-266 | likewise for the check, with the server up or down |
| `JsonGrammar.ContainerSound` | src/espbot/espbot_json.cpp:123-302 | what the reference parser accepts is well formed and prints as the text that was read |
| `JsonGrammar.ContainerComplete` | src/espbot/espbot_json.cpp:123-302 | every printed tree parses to itself |
| `JsonBrackets.EndOfContainer` | src/espbot/espbot_json.cpp:68-88 | counting brackets from the start of a value finds the end the grammar gives it |
| `JsonBrackets.NoOverrun` | src/espbot/espbot_json.cpp:96-116 | a well-formed value inside a bracketed text ends inside it, whichever bracket is counted |
| `JsonBrackets.NestedAgrees` | src/espbot/espbot_json.cpp:233-255 | checking the slice cut out by counting brackets accepts exactly the values the grammar accepts in place |
| `JsonEntries.AcceptedTexts` | src/espbot/espbot_json.cpp:123-302 | a printed container between blanks is accepted and read as itself; after it only blanks may follow, unless it is empty |
| `JsonEntries.AcceptedIsPrint` | src/espbot/espbot_json.cpp:123-302 | every accepted text is such a print |
| `JsonEntries.LookupFirst` | src/espbot/espbot_json.cpp:491-504 | a lookup answers with the first entry of that name, if and only if there is one |
| `JsonReader.FindEnd` | src/espbot/espbot_json.cpp:68-116 | the bracket scan returns the end of the value, or nothing if it has none |
| `JsonReader.CheckNested` | src/espbot/espbot_json.cpp:233-255 | the recursive checks on slices agree with the grammar |
| `JsonReader.JsonObject.SyntaxCheck` | src/espbot/espbot_json.cpp:123-302 | reports no error exactly for the accepted texts |
| `JsonReader.JsonObject.FindPair` | src/espbot/espbot_json.cpp:310-483 | successive calls give exactly the pairs of the object, in order, with name, kind and value |
| `JsonReader.JsonObject.FindKey` | src/espbot/espbot_json.cpp:491-504 | finds a key exactly if it is a top-level name of an accepted text, and then shows its first value |
| `JsonReader.JsonObject.GetInt` | src/espbot/espbot_json.cpp:506-539 | the integer, if it fits into 32 bits, or the error for each way it can fail, which stays until cleared |
| `JsonReader.JsonObject.GetStr` | src/espbot/espbot_json.cpp:568-590 | the text with the rest of the buffer cleared, or the error with the buffer untouched |
| `JsonReader.JsonArray.SyntaxCheck` | src/espbot/espbot_json.cpp:715-859 | reports no error exactly for the accepted arrays, and counts their elements exactly |
| `JsonReader.JsonArray.FindElem` | src/espbot/espbot_json.cpp:871-1024 | finds element i exactly for i below the count, and shows it |
| `JsonReader.JsonArray.GetInt` | src/espbot/espbot_json.cpp:1026-1070 | the integer of the element, if it fits into 32 bits, with the cached position never out of date |
| `OtaConfig.DecReads` | src/espbot/espbot_ota.cpp:592-599 | a 32-bit word printed as a signed number reads back as the same word |
| `OtaConfig.PairsText` | src/espbot/espbot_ota.cpp:588-600 | the printed text is the print of an object with the five pairs |
| `OtaConfig.StringifiedLength` | src/espbot/espbot_ota.cpp:566-600 | the text is as much longer than the length computed for it as host and port together take more than 18 characters, which is 8 at most |
| `OtaConfig.SavedLength` | src/espbot/espbot_ota.cpp:603-618 | the text fits the buffer it is saved from exactly when host, port and path take at most 146 characters together |
| `OtaConfig.Overruns` | src/espbot/espbot_ota.cpp:566-600 | host 192.168.100.201 and port 20090 are two characters too many, and port 0x8000_0000 eight |
| `OtaConfig.RoundTrip` | src/espbot/espbot_ota.cpp:498-528 | every configuration whose strings can be read is restored from its printed form |
| `OtaConfig.PrintedRoundTrip` | src/espbot/espbot_ota.cpp:498-600 | when host and port take at most 18 characters, the printed form also fits the buffer allocated for it |
| `OtaConfig.SavedRoundTrip` | src/espbot/espbot_ota.cpp:498-618 | when host, port and path take at most 146 characters, what is saved is restored, and fits the buffer it is saved from |
| `OtaConfig.TooBig` | src/espbot/espbot_json.cpp:506-539 | every number from 2 to the 31 on with up to fifteen digits is accepted though no int holds it |
| `OtaConfig.Ota.RestoreCfg` | src/espbot/espbot_ota.cpp:498-528 | restores what the text says if all five fields can be read and the numbers fit into 32 bits, and otherwise reports an error and changes nothing; a missing file has its own error |

## Left out

- HAL and SPI errors and power loss in the middle of an operation: flash calls are exact, since several invariants only hold between completed steps.
- Partial truncation (a new size above 0): no public call reaches it.
- `SPIFFS_gc_quick` with a number of free pages above 0, which no caller in espbot uses.
- Index maps, object metadata, visualisation, `spiffs_probe`, directory reading, `lseek`, `stat`, `fremove`, and descriptors opened by directory entry or by page.
- The choice of a descriptor by `spiffs_fd_find_new` and its search hint, and the choice of a cache slot for a write page: both are parameters, so the theorems hold for any choice.
- Mixing DIRECT and cached descriptors on one object.
- The buffering of lookup pages during a search, and the wrap of the access counter and of address sums at 32 bits; page numbers of the checker wrap at 16 bits as they do in the code.
- The work buffer is read as a page; tables and bitmaps that share it in the program (id search, checker) are locals here, so what they leave behind in it is not modelled.
- The repair branches of the consistency checker: each check is modelled up to the first thing it would repair.
- Alloc.EraseBlock: counts a block that was wholly free a second time, as the code does; the `surplus` field keeps the difference, so the count of free blocks is exact only as long as no such block is erased.
- Objects.UpdateIndexHdr: is for files with content; what the same function does to the header of an empty file is in `Rename.NewName` and `Truncate.ClearObject`.
- Modify.ObjectModify: is for files that have lost no page, and so are the calls that overwrite, truncate, remove or write back cached bytes. Overwriting a lost page again deletes whatever page the index names, which may be one of this or another file. Collecting, renaming, opening without truncation, closing with nothing cached and reading other pages are covered for files that have lost pages.
- WriteCache.Write: when writing back the old write page loses a page and the rest would go to the file at once, it tells the state at that point; what becomes of the rest is not modelled.
- Hydro.HydroWrite: a write that begins within the file and ends behind it, and with it the write cache, is for file systems of less than 0x7FFF pages and a gigabyte (`Image.Ample`), so that a file that has lost pages cannot outgrow its page count and size field; nor does it cover an empty file and an offset of a whole page or more.
- Append.ObjectAppend: does not cover an empty file and an offset of a whole page or more, which no call reaches, nor a file with a spare index page, for which `Append.IndexTwice` says what happens.
- Read.ObjectRead: on flash that is torn it reads pages by numbers that may be anything; what is no page of the flash, or has not the form of an index page, counts as an error there; and what a read of a lost page gives is not told, an error or what another file has there.
- Sessions.Session: descriptors that go past the cache, truncations that would strand a write page, and writes of no bytes through a descriptor that does not append are not among its calls; their effect is in `WriteCache.Write`, `Files.Open` and `Hydro.ModifyNothing`.
- Checker.CheckFs: is for flash on which no page is lost; for others there is `Checker.LostIsFound`.
- Mount.MountFs: the magic numbers and the errors they can give are not modelled; mounting goes on as if they were right.
- Checker.PageCheck: is for work buffers of less than 0x8000 bytes, so that the length of a range is not cut to 16 bits.
- FreeId.FindFreeObjId: assumes that ids in use were handed out in the same way, which `Files.Settled` keeps; ids that would collide with the mark of a free entry need a file system larger than the one built here.
- esp_spiffs_read at unaligned addresses, where a byte offset is added to a word pointer.
- Heap exhaustion in the HTTP sender, formatting of headers and error messages, the time-out timer (its effect is that of the sent callback), `clean_pending_send`, and the queue's `next`.
- Escapes, literals and Unicode, which the JSON reader does not know; getters for floats, nested objects and arrays; what `atoi` makes of a number beyond 32 bits.
- JsonReader.JsonObject.SyntaxCheck: tells that a text is rejected, and not the position that the code of the error stands for; the same holds for JsonReader.JsonArray.SyntaxCheck.
- Collect.GcCheck: success is assured where there is room already or wholly deleted blocks make it; whether blocks that hold pages in use make room depends on how many runs that takes, and of these it is told what each gains and when the series ends.
- OtaConfig.Ota.RestoreCfg: buffers are modelled by the strings they hold, and the configuration file by its text.
- WiFi, timers, cron, GPIO, routes and the OTA engine.
