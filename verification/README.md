# Verified models of generator-agent

Dafny models of three parts of `generator-agent`, with proofs about them. `dafny verify dfyconfig.toml` checks
everything.

**The memory pool** (`libtscommon/mempool`). `Words` holds 32-bit words as numbers with their bits. `BitTricks`
is the population count and the search for the lowest zero. `CellProtocol` is the lock-free protocol on one
bitmap cell, as a state machine over its atomic steps, with any number of threads. `FragPool` adds the
descriptor table of the fragment allocator, every descriptor write being a step of its own. `FreeTree`,
`FreeLinks` and `PageLayout` describe the free tree of a heap page, its relative child offsets, and the tiling
of the page by blocks; `HeapSpec` is the heap as functions on those, with its laws over whole runs; `HeapPage`
is the heap as the code runs it, on arrays of header fields of 10 and 11 bits, each method proved to do what
the function of `HeapSpec` says.

**The JSON text codec** (`libjson`, in the configuration of `include/JSONOptions.h`). `JsonEscape`, `JsonNumber`,
`JsonTree`, `JsonStrip` and `JsonScan` are escaping, number texts, the two prints, the white space stripper and
the bracket-counting scanner. `JsonParse` is the parser with everything fetched. `JsonLazy`, `JsonRewrite`,
`JsonReparse`, `JsonNames` and `JsonNodes` are nodes that are fetched on demand: on values, written when partly
fetched, parsed again from that, and as objects updated in place. `JsonLayout` is about white space, `JsonStandard` about
documents written by hand in the grammar of RFC 8259, `JsonComments` about comments in front of a document.
`JsonValidate` is the recursive-descent validator, `JsonGrammar` the grammar of what it accepts, `JsonPastEnd` the
texts on which it reads past the end. `Base64` is section 4 of RFC 4648 as libbase64++ does it.

**The load engine** (`libtsload`, `run-tsload` and the structures they use). `StepRing` is the ring of step
counts, `Feeding` the protocol that keeps it filled, `Shares` and `Requests` the division of a step among the
workers, `RequestFlow` the hand-off of requests between threads, `SyncQueue` and `QueueWakeup` the synchronized
queue and its locks, `HashMap` the chained map with its removing walker, `LinkedList` the circular lists.

Loops and updates in place are methods and classes, proved against functions; the laws are lemmas about the
functions. Protocols are state machines: `Enabled` and `Next` give the steps, `Inv` what every step keeps, `Run`
any interleaving of them.

Where the code and its comments disagree, the model follows the code:

- `mp_bitmap_find_region` is described as finding a sequence of zeroes. It only ever looks at the lowest zero
  (`CellProtocol.RegionSearchIncomplete`); `CellProtocol.GrantExactly` says when it succeeds.
- `distribute_requests` is described as random. It tests `rand_value && (1 << bit)`, so a random value matters only
  by being zero or not. If RAND_MAX is above 2 to the 30th, the test for a new value is never met: the shares are
  even, or the loop never ends because the first value is zero (`Shares.FirstDrawDecides`). If it is smaller, the
  shares are uneven exactly if more requests are left over than the first non-zero value has bits
  (`Shares.EvenExactly`). Shift counts are taken modulo 32 and bit 31 is the sign, as on x86 and SPARC; the C
  standard leaves those shifts undefined.
- The flag that would have a parsed name escaped again is initialised after the name that sets it, so names
  are written as they are (`JsonRewrite.LazinessInvisible`, `JsonRewrite.RawNameIsLost`). They still come back
  if they hold no quote, backslash or NUL (`JsonReparse.RewriteComesBack`), and the last two do harm
  (`JsonNames.FirstNameExactly`).
- A number sign marks comments between stripper and parser, and is not masked inside them. The parser ends a comment
  at the first one, but goes on at once if another follows: a comment is harmless exactly if its number signs come
  in pairs of neighbours (`JsonComments.CommentHarmlessExactly`).
- The validator looks for a name behind a comma without looking for the end first
  (`JsonPastEnd.PastEndExactly` says on which texts it reads past it).
- Of an escaped code point only the lower eight bits are kept, as JSON_UNICODE is off (`JsonEscape.UnicodeRead`), and
  an escape of two hexadecimal or three octal digits at the very end of a string is read as a NUL and its last digits
  (`JsonEscape.HexRead`, `JsonEscape.OctalRead`).
- `isNumeric` and the validator take more for a number than JSON does, and not the same texts; the validator also
  accepts missing values and, behind a comma, names without an opening quote (`JsonNumber.NumericExactly`,
  `JsonGrammar.RootExactly`).
- The names of array elements are not printed, so they do not come back (`JsonParse.RoundTripExactly`).

A `None` or `Undefined` result stands for input on which the code reads past a string or builds one from a
negative range, or meets a comment inside a container.

## Model

| member | source | states |
|---|---|---|
| `BitTricks.BitCount` | generator-agent/lib/libtscommon/src/mempool.c:94-101 | For every 32-bit word the octal sums and the residue modulo 63 give the number of set bits |
| `BitTricks.FindOne` | generator-agent/lib/libtscommon/src/mempool.c:103-111 | For every word that is not full, the result is a zero bit and every bit below it is set |
| `CellProtocol.FindRegion` | generator-agent/lib/libtscommon/src/mempool.c:117-132 | The loop answers what its first round answers: the lowest zero if the region fits there, else -1, since the word is never updated |
| `CellProtocol.GrantIsFree` | generator-agent/lib/libtscommon/src/mempool.c:153-190 | Any region granted was all zero in the saved value, begins at its lowest zero and ends at or below max_items |
| `CellProtocol.GrantExactly` | generator-agent/lib/libtscommon/src/mempool.c:117-132 | A request for less than a whole cell is granted if and only if the run of zeroes at the lowest zero is long enough and ends at or below max_items |
| `CellProtocol.RegionSearchIncomplete` | generator-agent/lib/libtscommon/src/mempool.c:112-132 | A word with 30 free bits in a row for which a request of two bits is refused, against the comment that a sequence of zeroes is found |
| `CellProtocol.StepKeepsInv` | generator-agent/lib/libtscommon/src/mempool.c:146-196 | Every atomic step (exchange to BUSY, AND of the decision, AND of a free) keeps each bit in exactly one place: clear in the cell, clear in one allocator's saved value, or owned by one live region |
| `CellProtocol.RunKeepsInv` | generator-agent/lib/libtscommon/src/mempool.c:146-196 | That holds at every moment of every interleaving of any number of threads |
| `CellProtocol.LiveRegionsDisjoint` | generator-agent/lib/libtscommon/src/mempool.c:146-196 | In every run two live regions that share a bit are the same |
| `CellProtocol.QuiescentCellIsExact` | generator-agent/lib/libtscommon/src/mempool.c:303-321 | In every run, once no allocator is between its two steps, a bit is set if and only if a live region owns it: no free is lost |
| `CellProtocol.RequestAnswered` | generator-agent/lib/libtscommon/src/mempool.c:146-184 | In every run, whatever other threads do between a thread's exchange and its return: if the cell taken was not BUSY, exactly the region that starts at its lowest zero, has the length asked for, is all zero there and ends at or below max_items becomes live, new and owned by nobody before; if there is none, nothing does |
| `CellProtocol.FirstRequest` | generator-agent/lib/libtscommon/src/mempool.c:146-184 | On an empty cell every request for 1 to 32 bits that fit below max_items is granted its first bits |
| `CellProtocol.RequestAlone` | generator-agent/lib/libtscommon/src/mempool.c:146-184 | A request with nobody between its two steps is never stuck and is answered in the same way |
| `CellProtocol.BusyRefuses` | generator-agent/lib/libtscommon/src/mempool.c:146-151 | A BUSY cell refuses and nothing changes |
| `CellProtocol.FreeClears` | generator-agent/lib/libtscommon/src/mempool.c:186-196 | A free clears the bits of its region and no others, and takes that region alone from the live ones |
| `FragPool.StepKeepsInv` | generator-agent/lib/libtscommon/src/mempool.c:383-447 | Each exchange, AND and single descriptor write keeps the descriptor table in agreement with the bitmap: written part, unwritten part and unowned descriptors |
| `FragPool.RunKeepsInv` | generator-agent/lib/libtscommon/src/mempool.c:383-494 | The same over all runs on any number of pages |
| `FragPool.FragmentsDisjoint` | generator-agent/lib/libtscommon/src/mempool.c:383-447 | Live fragments never overlap |
| `FragPool.WriteFindsUnallocated` | generator-agent/lib/libtscommon/src/mempool.c:410-430 | Every descriptor mp_frag_alloc writes is unallocated at that moment: its assertions never fail |
| `FragPool.FreeNeverStuck` | generator-agent/lib/libtscommon/src/mempool.c:449-494 | A free that reads its size from the head descriptor clears and releases exactly its own fragment |
| `FragPool.GetDescrFindsHead` | generator-agent/lib/libtscommon/src/mempool.c:496-509 | From every pointer inside a live fragment the head descriptor is found, and it holds the size and flags |
| `FragPool.GetDescrOutside` | generator-agent/lib/libtscommon/src/mempool.c:496-509 | Outside all live fragments the answer is NULL |
| `FragPool.RequestAnswered` | generator-agent/lib/libtscommon/src/mempool.c:383-409 | In every run over any number of pages: the fragment that the cell of the page grants to a request becomes live in that page, unwritten and with the flags asked for, and no other fragment of the page changes |
| `FragPool.WrittenFragment` | generator-agent/lib/libtscommon/src/mempool.c:410-430 | Once written, the head descriptor holds flags and size, the others their distance from the head, and all descriptors outside the fragment are as before |
| `FragPool.FreedFragment` | generator-agent/lib/libtscommon/src/mempool.c:449-494 | A free run to its end leaves the descriptors of exactly its fragment unallocated, clears exactly its bits, and takes it alone from the live ones |
| `FreeTree.InsertNodes` | generator-agent/lib/libtscommon/src/mempool.c:785-852 | Insertion adds the block to the set of nodes and nothing else |
| `FreeTree.InsertKeepsOrder` | generator-agent/lib/libtscommon/src/mempool.c:785-852 | Insertion, equal sizes to the left, keeps the weak order left <= node <= right and reaches each node once |
| `FreeTree.InsertPlace` | generator-agent/lib/libtscommon/src/mempool.c:785-852 | In the tree read from left to right the new block stands behind all smaller ones, in front of all larger ones and of all of its own size, and nothing else moves |
| `FreeTree.RemoveKeepsOrder` | generator-agent/lib/libtscommon/src/mempool.c:865-925 | Deletion, with the successor put in place of a node that has two children, removes only that node and keeps the weak order |
| `FreeTree.RemovePlace` | generator-agent/lib/libtscommon/src/mempool.c:865-925 | In the tree read from left to right exactly the removed block is missing |
| `FreeTree.BestIsBestFit` | generator-agent/lib/libtscommon/src/mempool.c:932-988 | The search finds nothing if and only if every free block is too small; otherwise a block of least sufficient size |
| `FreeTree.LinearLists` | generator-agent/lib/libtscommon/src/mempool.c:640-653 | Linearisation lists every node exactly once |
| `FreeLinks.LinksInside` | generator-agent/lib/libtscommon/include/mempool.h:74-94 | Every child offset stored in a header leads to a node of the tree, or is 0 |
| `PageLayout.BlocksDisjoint` | generator-agent/lib/libtscommon/include/mempool.h:74-94 | Blocks that tile the page do not overlap |
| `PageLayout.BlocksCover` | generator-agent/lib/libtscommon/include/mempool.h:74-94 | Every unit of the page is in a block |
| `PageLayout.UnitsConserved` | generator-agent/lib/libtscommon/include/mempool.h:124-130 | The units of any set of blocks and of the other blocks sum to the page |
| `HeapSpec.Units` | generator-agent/lib/libtscommon/src/mempool.c:999-1012 | The least number of units that is at least 4 and holds the bytes and a header of 4 |
| `HeapSpec.AllocFailsExactly` | generator-agent/lib/libtscommon/src/mempool.c:932-1012 | In bytes: a request fails if and only if every free block has fewer than 4 units or less room behind its header than bytes are asked for |
| `HeapSpec.AllocCorrect` | generator-agent/lib/libtscommon/src/mempool.c:997-1093 | Allocation fails if and only if all free blocks are too small, and then changes nothing; otherwise one best-fitting block changes sides, cut to the units asked for if more than 4 are left over, else whole, and no other block changes |
| `HeapSpec.AllocCounts` | generator-agent/lib/libtscommon/src/mempool.c:1055-1083 | What an allocation does to free units, free blocks and allocated blocks |
| `HeapSpec.FreeCorrect` | generator-agent/lib/libtscommon/src/mempool.c:1100-1147 | A free moves one block to the free ones and keeps tiling, order and counts |
| `HeapSpec.CoalesceCorrect` | generator-agent/lib/libtscommon/src/mempool.c:697-722 | Merging sorted free blocks keeps the set of free units and all other blocks, and leaves no two free blocks adjacent |
| `HeapSpec.DefragCorrect` | generator-agent/lib/libtscommon/src/mempool.c:671-733 | Defragmentation keeps the free units and the allocated blocks, and leaves an ordered tree with one node for each maximal free run |
| `HeapSpec.DefragCounts` | generator-agent/lib/libtscommon/src/mempool.c:671-733 | The free and allocated units and the allocated count are kept; the free count becomes the number of runs |
| `HeapSpec.RunKeepsInv` | generator-agent/lib/libtscommon/src/mempool.c:997-1147 | After every sequence of allocations, frees and defragmentations the blocks tile the page and the tree holds exactly the free ones, in order, and units are conserved |
| `HeapSpec.LiveBlockIsStable` | generator-agent/lib/libtscommon/src/mempool.c:997-1147 | No operation on other blocks moves or resizes a live block |
| `HeapSpec.BlocksNeverOverlap` | generator-agent/lib/libtscommon/src/mempool.c:997-1147 | In a page that satisfies the invariant no unit is in two blocks |
| `HeapPage.Page.constructor` | generator-agent/lib/libtscommon/src/mempool.c:544-602 | A new page is one free block over all its units, with matching counters |
| `HeapPage.Page.MarkIsExact` | generator-agent/lib/libtscommon/include/mempool.h:109-110 | The allocated mark is on exactly the headers that are not in the tree |
| `HeapPage.Page.SetLeft` | generator-agent/lib/libtscommon/include/mempool.h:90-98 | The stored offset leads back to the child and fits its 11-bit field |
| `HeapPage.Page.CopyRight` | generator-agent/lib/libtscommon/include/mempool.h:92-102 | Copying a child link re-bases its offset to the new header |
| `HeapPage.Page.Insert` | generator-agent/lib/libtscommon/src/mempool.c:785-852 | The descending loop over header links builds the tree the insertion function describes, and touches no other link |
| `HeapPage.Page.Delete` | generator-agent/lib/libtscommon/src/mempool.c:865-925 | Rewriting the links of parent, successor and children gives the tree without that node, for any number of children and at the root |
| `HeapPage.Page.TakeSuccessor` | generator-agent/lib/libtscommon/src/mempool.c:875-911 | Unlinks the leftmost node of the right subtree and hangs it in place of the deleted one |
| `HeapPage.Page.FindDelete` | generator-agent/lib/libtscommon/src/mempool.c:932-988 | Returns -1 with nothing changed if and only if no block is big enough, else removes the best fit alone |
| `HeapPage.Page.Linearize` | generator-agent/lib/libtscommon/src/mempool.c:640-653 | Fills the array with the nodes of the subtree, each once, and returns the next index |
| `HeapPage.Page.Alloc` | generator-agent/lib/libtscommon/src/mempool.c:997-1093 | The page after the call is the allocation function of the page before: -1 exactly if every free block has fewer than 4 units or too little room in bytes; else a block that has the least units for the bytes, or up to 4 more if it was not worth cutting. The counters stay exact and the defragmentation period is left alone |
| `HeapPage.Page.Free` | generator-agent/lib/libtscommon/src/mempool.c:1100-1147 | The page after the call is the free function of the page before, defragmented exactly when something is still allocated, there are more than 16 free blocks and the period has run out; otherwise the period is counted down in that case and left alone in all others; reports whether nothing is left allocated |
| `HeapPage.Page.FreeList` | generator-agent/lib/libtscommon/src/mempool.c:688-695 | The free headers, linearised and sorted, fill an array of free_count offsets exactly, in ascending order |
| `HeapPage.Page.Defrag` | generator-agent/lib/libtscommon/src/mempool.c:671-733 | Counts the period down; when it runs out the page becomes its defragmentation, with the counters kept exact |
| `HeapPage.SortByAddress` | generator-agent/lib/libtscommon/src/mempool.c:655-662 | Leaves the same offsets in ascending order |
| `HeapSpec.AscendingUnique` | generator-agent/lib/libtscommon/src/mempool.c:655-662 | There is only one way to list a set of offsets in ascending order |
| `JsonEscape.UnfixString` | generator-agent/lib/libjson/src/JSONWorker.cpp:478-557 | Appends the escaped text if the flag is set, else the text as it is |
| `JsonEscape.FixString` | generator-agent/lib/libjson/src/JSONWorker.cpp:346-453 | Gives the unescaped text, and a flag that says whether a backslash was met |
| `JsonEscape.FixUndoesUnfix` | generator-agent/lib/libjson/src/JSONWorker.cpp:346-557 | For every byte string, unescaping its escape gives it back, with or without masked quotes |
| `JsonEscape.FastPathUndone` | generator-agent/lib/libjson/src/JSONWorker.cpp:478-490 | Text for which the flag is cleared is its own unescaping |
| `JsonEscape.EscapedIsQuiet` | generator-agent/lib/libjson/src/JSONWorker.cpp:210-227 | Masked escaped text holds no quote, no NUL and no control byte but the mask |
| `JsonEscape.PlainOrLonger` | generator-agent/lib/libjson/src/JSONWorker.cpp:478-557 | Escaping changes nothing if and only if the escape holds no backslash; otherwise it is longer |
| `JsonEscape.EscapeTable` | generator-agent/lib/libjson/src/JSONWorker.cpp:478-557 | What each of the 256 bytes is written as |
| `JsonEscape.SimpleRead` | generator-agent/lib/libjson/src/JSONWorker.cpp:346-426 | What each one-letter escape is read as, whatever follows; a letter that means nothing is itself |
| `JsonEscape.UnicodeRead` | generator-agent/lib/libjson/src/JSONWorker.cpp:296-336 | Of the four digits behind u the last two count, in either case |
| `JsonEscape.HexRead` | generator-agent/lib/libjson/src/JSONWorker.cpp:387-391 | Two digits of either case behind x, and the NUL read instead at the end of the text |
| `JsonEscape.OctalRead` | generator-agent/lib/libjson/src/JSONWorker.cpp:338-344 | Three octal digits, modulo 256, and the NUL read instead at the end of the text |
| `JsonNumber.Itoa` | generator-agent/lib/libjson/include/NumberToString.h:52-84 | Writing digits backwards gives the decimal text, and never overruns the buffer for 64-bit integers above the least one |
| `JsonNumber.NumericIsPlain` | generator-agent/lib/libjson/include/NumberToString.h:163-280 | Numeric text holds no byte that means anything to the scanner |
| `JsonNumber.NumericExactly` | generator-agent/lib/libjson/include/NumberToString.h:163-280 | A text without NULs is accepted if and only if it is one of: decimal with a sign or a first digit that is not zero, fraction, zero with a fraction or power of ten, hexadecimal, octal, zero |
| `JsonNumber.StandardNumbersAccepted` | generator-agent/lib/libjson/include/NumberToString.h:163-280 | Every number of section 6 of RFC 8259 is accepted, with and without its minus |
| `JsonNumber.IntTextIsNumeric` | generator-agent/lib/libjson/include/NumberToString.h:163-280 | Every integer text is numeric: a minus exactly if it is negative, and digits, of which the first is zero only if it is the only one |
| `JsonNumber.AtollUndoesItoa` | generator-agent/lib/libjson/src/internalJSONNode.cpp:188-228 | Every integer above the least 64-bit one is read back from its text |
| `JsonNumber.AtollReads` | generator-agent/lib/libjson/src/internalJSONNode.cpp:188-228 | Any sign, leading zeros, digits and bytes behind them are read as the number with that sign, held within 64 bits |
| `JsonTree.SettersMakeGoodNumbers` | generator-agent/lib/libjson/src/internalJSONNode.cpp:265-277 | Every number a setter stores is numeric text, so every tree the setters build can be read back |
| `JsonTree.WriteName` | generator-agent/lib/libjson/src/JSONWriter.cpp:70-76 | Appends the quoted escaped name and the colon of the print asked for; nothing for an array child |
| `JsonTree.Write` | generator-agent/lib/libjson/src/JSONWriter.cpp:195-251 | The recursive writer appends the compact or the formatted print of the node |
| `JsonTree.WriteChildren` | generator-agent/lib/libjson/src/JSONWriter.cpp:78-102 | The loop appends all children with commas between them, and new lines and tabs if formatted |
| `JsonTree.WriteRoot` | generator-agent/lib/libjson/include/JSONNode.h:926-940 | A container is printed without its name; anything else gives the empty string |
| `JsonStrip.RemoveWhiteSpace` | generator-agent/lib/libjson/src/JSONWorker.cpp:171-239 | The loop gives the stripped text: outside quotes only what is printable, comments between marks, escaped quotes masked on demand; a stray slash or a byte that is not allowed ends it |
| `JsonStrip.SingleLineComment` | generator-agent/lib/libjson/src/JSONWorker.cpp:146-153 | The rest of the line between marks; at the end of the text the caller would step past it |
| `JsonStrip.MultiLineComment` | generator-agent/lib/libjson/src/JSONWorker.cpp:187-199 | Up to the next star and slash, between marks; one that is not closed ends the text |
| `JsonStrip.QuotedText` | generator-agent/lib/libjson/src/JSONWorker.cpp:210-227 | The bytes up to the closing quote, white space kept, each byte behind a backslash taken with it |
| `JsonStrip.StripFormatted` | generator-agent/lib/libjson/src/JSONWriter.cpp:21-102 | Stripping the formatted print of any tree gives exactly its compact print |
| `JsonStrip.StripCompact` | generator-agent/lib/libjson/src/JSONWorker.cpp:171-239 | Stripping the compact print changes nothing |
| `JsonStrip.StripForParsing` | generator-agent/lib/libjson/src/JSONWorker.cpp:210-227 | Both prints strip to the compact print with its escaped quotes masked |
| `JsonLayout.ByteOutside` | generator-agent/lib/libjson/src/JSONWorker.cpp:171-239 | What each byte outside quotes and comments does: tab, line feed, carriage return and space go, printable bytes stay, any other byte and a slash alone end the text |
| `JsonLayout.SpacedDocument` | generator-agent/lib/libjson/src/JSONWorker.cpp:171-239 | A container parses to the same tree with any of these four bytes, in any number, between its tokens and behind it |
| `JsonLayout.TabsAre` | generator-agent/lib/libjson/src/JSONWriter.cpp:21-41 | A line break is a line feed and as many tabs as the node is deep |
| `JsonLayout.FormattedLayout` | generator-agent/lib/libjson/src/JSONWriter.cpp:78-102 | The formatted print is the tokens of the compact one, each child on a line of its own behind as many tabs as it is deep |
| `JsonLayout.FormattedWithCr` | generator-agent/lib/libjson/src/JSONWorker.cpp:171-239 | The formatted print with a carriage return in front of each line feed parses to the same tree |
| `JsonScan.FindNextRelevant` | generator-agent/lib/libjson/src/JSONWorker.cpp:84-142 | The loop finds the next separator outside quotes and brackets |
| `JsonScan.SkipBracket` | generator-agent/lib/libjson/src/JSONWorker.cpp:84-104 | From an opening bracket to the one that closes it, past nested brackets and quotes |
| `JsonScan.TextInBracket` | generator-agent/lib/libjson/src/JSONWorker.cpp:84-142 | Inside brackets the print of a value leaves the bracket count as it was |
| `JsonScan.FindPassesText` | generator-agent/lib/libjson/src/JSONWorker.cpp:84-142 | The scanner steps over the whole print of any value and lands on the first separator behind it |
| `JsonParse.ParseText` | generator-agent/lib/libjson/src/JSONWorker.cpp:566-673 | The parsed print of a value is the value, but for the names of array elements |
| `JsonParse.ParseUndoesWrite` | generator-agent/lib/libjson/src/JSONWorker.cpp:11-16 | Parsing what either writer prints for a container tree gives that tree, but for names that are not printed |
| `JsonParse.EraseIsIdentity` | generator-agent/lib/libjson/src/JSONWriter.cpp:70-76 | Nothing is lost if and only if no array element has a name |
| `JsonParse.RoundTripExactly` | generator-agent/lib/libjson/src/JSONWorker.cpp:566-673 | The compact print parses back to the equal tree if and only if no array element has a name |
| `JsonParse.SetterTreesComeBack` | generator-agent/lib/libjson/src/JSONWorker.cpp:566-673 | A container built by the setters alone comes back from both prints, but for names that are not printed |
| `JsonStandard.StandardDocument` | generator-agent/lib/libjson/src/JSONWorker.cpp:11-673 | Every array or object written by hand in the grammar of RFC 8259, with any white space, any numeric texts and any of its escapes, is parsed to the tree it stands for; of an escaped code point the lower eight bits are kept |
| `JsonStandard.PairInArray` | generator-agent/lib/libjson/src/JSONWorker.cpp:614-645 | An array with a pair among its elements is read as null, whatever follows the pair |
| `JsonStandard.NoPairInObject` | generator-agent/lib/libjson/src/JSONWorker.cpp:649-673 | An object whose last member has no colon is read as null |
| `JsonStandard.NoDocument` | generator-agent/lib/libjson/src/JSONWorker.cpp:11-60 | A scalar alone and a container closed by the wrong bracket are not JSON |
| `JsonComments.CommentStrips` | generator-agent/lib/libjson/src/JSONWorker.cpp:146-209 | Each of the three kinds of comment strips to its text between marks, with nothing in the text masked |
| `JsonComments.ParseBehindComment` | generator-agent/lib/libjson/src/JSONWorker.cpp:29-46 | What the parser makes of any text behind a comment: the same as without it if the signs in the comment are paired, else what follows the first sign without a neighbour is taken for the document |
| `JsonComments.CommentHarmlessExactly` | generator-agent/lib/libjson/src/JSONWorker.cpp:29-46 | A comment makes no difference in front of any text if and only if the number signs in it come in pairs of neighbours |
| `JsonComments.LooseAndPaired` | generator-agent/lib/libjson/src/JSONWorker.cpp:29-46 | A comment with one sign that turns an array into a text that is not JSON, and one with two neighbours that does no harm |
| `JsonLazy.ConstructMeaning` | generator-agent/lib/libjson/src/internalJSONNode.cpp:78-145 | A node built from a text stands for the tree that text parses to |
| `JsonLazy.FetchKeepsMeaning` | generator-agent/lib/libjson/src/internalJSONNode.cpp:159-183 | Whatever the text, fetching a node one level keeps the tree it stands for, and is undefined only if that is |
| `JsonNodes.InternalNode.constructor` | generator-agent/lib/libjson/src/internalJSONNode.cpp:78-145 | The object built is the unfetched or literal node its first and last byte select |
| `JsonNodes.InternalNode.Nullify` | generator-agent/lib/libjson/src/internalJSONNode.cpp:384-392 | Becomes a fetched null with the text null |
| `JsonNodes.InternalNode.SetString` | generator-agent/lib/libjson/src/internalJSONNode.cpp:256-263 | Becomes a fetched string that is escaped when written |
| `JsonNodes.InternalNode.SetInt` | generator-agent/lib/libjson/src/internalJSONNode.cpp:266-277 | Becomes a fetched number with the decimal text, and stores the integer |
| `JsonNodes.InternalNode.SetBool` | generator-agent/lib/libjson/src/internalJSONNode.cpp:341-349 | Becomes a fetched literal, and stores the truth value |
| `JsonNodes.InternalNode.NewNode` | generator-agent/lib/libjson/src/JSONWorker.cpp:566-611 | Attaches one fresh unfetched child behind the others |
| `JsonNodes.InternalNode.DoArray` | generator-agent/lib/libjson/src/JSONWorker.cpp:614-645 | The loop over commas attaches exactly the elements of the text, or nullifies the node if one is a pair |
| `JsonNodes.InternalNode.DoNode` | generator-agent/lib/libjson/src/JSONWorker.cpp:649-673 | The loop over colons and commas attaches exactly the members of the text, or nullifies the node if a colon is missing |
| `JsonNodes.InternalNode.Fetch` | generator-agent/lib/libjson/src/internalJSONNode.cpp:231-253 | In place: a fetched node is unchanged; an unfetched one becomes its one-level fetch, with fresh children; a number stores the integer its text starts with |
| `JsonRewrite.FetchAtKeepsMeaning` | generator-agent/lib/libjson/src/internalJSONNode.cpp:231-253 | Fetching every node on a path keeps the tree, whatever the text |
| `JsonRewrite.FetchAllKeepsMeaning` | generator-agent/lib/libjson/src/internalJSONNode.cpp:231-253 | So does fetching along any paths, in any order, any number of times |
| `JsonRewrite.FetchAllReaches` | generator-agent/lib/libjson/src/internalJSONNode.cpp:231-253 | Afterwards every node on each of those paths is fetched |
| `JsonRewrite.NothingElseFetched` | generator-agent/lib/libjson/src/internalJSONNode.cpp:231-253 | A node that is not on the path stays unfetched, with its text |
| `JsonRewrite.StringRewritten` | generator-agent/lib/libjson/src/JSONWriter.cpp:195-251 | A fetched string without a backslash is written as it was read, whatever bytes it holds; one with a backslash is escaped anew |
| `JsonRewrite.DumpRawString` | generator-agent/lib/libjson/src/JSONWriter.cpp:181-193 | The masks of the raw text become quotes again |
| `JsonRewrite.UnmaskText` | generator-agent/lib/libjson/src/JSONWriter.cpp:181-193 | The raw dump of a value is its compact print |
| `JsonRewrite.FetchReps` | generator-agent/lib/libjson/src/internalJSONNode.cpp:159-183 | Fetching a node of a printed tree never fails and gives a form of the same tree |
| `JsonRewrite.TextOfRep` | generator-agent/lib/libjson/src/JSONWriter.cpp:195-251 | A partly fetched tree is written as printed if the names of fetched members are plain, and only then is as long |
| `JsonRewrite.LazinessInvisible` | generator-agent/lib/libjson/src/JSONWriter.cpp:181-251 | Print, parse, fetch any nodes: the text written then is the print again if and only if no fetched member's name needs escaping, and then parses to the same tree |
| `JsonRewrite.RawNameIsLost` | generator-agent/lib/libjson/include/internalJSONNode.h:256-257 | A member named by a quote is lost when its object is fetched, written and parsed |
| `JsonReparse.StripLazy` | generator-agent/lib/libjson/src/JSONWriter.cpp:181-251 | What a partly fetched tree with safe names is written as strips to the text described, names left as they are |
| `JsonReparse.FindPassesLazy` | generator-agent/lib/libjson/src/JSONWorker.cpp:84-142 | The scanner steps over the whole of it |
| `JsonReparse.ParseLazy` | generator-agent/lib/libjson/src/JSONWorker.cpp:566-673 | It parses to the tree, whatever part was fetched |
| `JsonReparse.RewriteComesBack` | generator-agent/lib/libjson/src/JSONWriter.cpp:181-251 | Print, parse, fetch any nodes, write: that parses to the same tree if no fetched member's name holds a quote, a backslash or a NUL, also where the text written is not the print |
| `JsonReparse.PlainNamesAreSafe` | generator-agent/lib/libjson/src/JSONWorker.cpp:478-557 | Names that need no escaping are among these, and a slash is one that does need it |
| `JsonNames.StripName` | generator-agent/lib/libjson/src/JSONWorker.cpp:210-227 | A quote behind a name that ends in a lone backslash is masked and taken for part of the name; behind any other name it ends it |
| `JsonNames.LoneIsNotRead` | generator-agent/lib/libjson/src/JSONWorker.cpp:346-453 | What such a name is read as, with the text behind it, is never the name |
| `JsonNames.UnsafeNameIsLost` | generator-agent/lib/libjson/src/JSONWriter.cpp:70-76 | A fetched object does not come back if its first name holds a backslash or a NUL, and no quote |
| `JsonNames.FirstNameExactly` | generator-agent/lib/libjson/src/JSONWriter.cpp:70-76 | If the other fetched names are safe and the first holds no quote, the object comes back if and only if the first name is safe |
| `JsonValidate.NumberAccepted` | generator-agent/lib/libjson/src/JSONValidator.cpp:12-198 | Every text the reader takes for a number is a valid number, up to its last byte |
| `JsonValidate.StringAccepted` | generator-agent/lib/libjson/src/JSONValidator.cpp:256-312 | Every escaped string is valid, up to its closing quote |
| `JsonValidate.MemberVerdict` | generator-agent/lib/libjson/src/JSONValidator.cpp:212-254 | On a printed value the routine stops just past it, or rejects if the nesting goes beyond 128 |
| `JsonValidate.ArrayVerdict` | generator-agent/lib/libjson/src/JSONValidator.cpp:346-369 | The same from behind an opening square bracket |
| `JsonValidate.NamedVerdict` | generator-agent/lib/libjson/src/JSONValidator.cpp:314-327 | The same for the members of an object |
| `JsonValidate.ValidExactly` | generator-agent/lib/libjson/src/JSONValidator.cpp:371-386 | The compact print of a container is accepted if and only if it is nested no deeper than 128 |
| `JsonValidate.IsValidNumber` | generator-agent/lib/libjson/src/JSONValidator.cpp:12-198 | The loop answers what the grammar of numbers says, and stops there |
| `JsonValidate.IsValidString` | generator-agent/lib/libjson/src/JSONValidator.cpp:256-312 | The loop answers what the grammar of strings says |
| `JsonValidate.IsValidMember` | generator-agent/lib/libjson/src/JSONValidator.cpp:212-254 | Agrees with the recursive description, and reports reading past the end |
| `JsonValidate.IsValidNamedObject` | generator-agent/lib/libjson/src/JSONValidator.cpp:314-327 | Agrees with the recursive description; the byte behind a comma is skipped unseen |
| `JsonValidate.IsValidObject` | generator-agent/lib/libjson/src/JSONValidator.cpp:329-344 | Agrees with the recursive description |
| `JsonValidate.IsValidArray` | generator-agent/lib/libjson/src/JSONValidator.cpp:346-369 | The loop over elements agrees with the recursive description |
| `JsonValidate.IsValidRoot` | generator-agent/lib/libjson/src/JSONValidator.cpp:371-386 | Agrees with the description on every C string |
| `JsonGrammar.StringExactly` | generator-agent/lib/libjson/src/JSONValidator.cpp:256-312 | A string is accepted, up to some place, if and only if it consists of plain bytes and complete escapes and a quote ends it there |
| `JsonGrammar.LooseNumberAccepted` | generator-agent/lib/libjson/src/JSONValidator.cpp:12-198 | Every number of the grammar is accepted whole in front of a separator, a closing bracket or the end |
| `JsonGrammar.NumberRead` | generator-agent/lib/libjson/src/JSONValidator.cpp:12-198 | What is accepted of a text as a number is a number of the grammar |
| `JsonGrammar.DocAccepted` | generator-agent/lib/libjson/src/JSONValidator.cpp:212-369 | Every well-formed document is accepted whole in front of a separator or a closing bracket |
| `JsonGrammar.MemberDoc` | generator-agent/lib/libjson/src/JSONValidator.cpp:212-369 | What is accepted of a text as a value is a well-formed document |
| `JsonGrammar.RootExactly` | generator-agent/lib/libjson/src/JSONValidator.cpp:371-386 | The validator answers true if and only if the C string is an array or object of the grammar: values may be missing, behind a comma any byte may open a name, and at most 128 containers are nested |
| `JsonPastEnd.PastEndExactly` | generator-agent/lib/libjson/src/JSONValidator.cpp:314-386 | The validator reads past the end if and only if the C string ends in a comma, not behind an opening brace, and a closing brace instead of that comma, with further closing brackets, makes it valid |
| `JsonPastEnd.MemberAgrees` | generator-agent/lib/libjson/src/JSONValidator.cpp:212-254 | A text that goes on with a comma or with a closing brace is accepted up to the same place or rejected both times, unless the comma leads past the end |
| `JsonPastEnd.CommaInArray` | generator-agent/lib/libjson/src/JSONValidator.cpp:346-369 | An array that ends in a comma is rejected |
| `JsonPastEnd.CommaInObject` | generator-agent/lib/libjson/src/JSONValidator.cpp:314-327 | An object that ends in a comma is read past its end |
| `StepRing.ProvideAppends` | generator-agent/lib/libtsload/src/workload.c:277-300 | A step is answered full if and only if 16 are queued, OK if and only if it is the next and there is room, and then goes to the end of the queue and overwrites nothing in it |
| `StepRing.AdvanceTakesFirst` | generator-agent/lib/libtsload/src/workload.c:310-340 | Advancing takes the first queued count, or finds the queue empty |
| `StepRing.Workload.constructor` | generator-agent/lib/libtsload/src/workload.c:65-67 | A new workload is before step 0 with nothing queued |
| `StepRing.Workload.ProvideStep` | generator-agent/lib/libtsload/src/workload.c:277-300 | Answer, fields and ring after the call, as a function of those before |
| `StepRing.Workload.AdvanceStep` | generator-agent/lib/libtsload/src/workload.c:310-340 | The same, and the request counter is cleared |
| `Feeding.StepsReader.GetStep` | generator-agent/cmd/run-tsload/src/steps.c:72-105 | Numbered counts one by one; after an error or the end, no more steps |
| `Feeding.StepKeepsInv` | generator-agent/cmd/run-tsload/src/load.c:187-204 | Each step of the main, notification and control threads keeps: steps queued, in hand and owed for notices are at most 16 |
| `Feeding.RunKeepsInv` | generator-agent/cmd/run-tsload/src/load.c:270-304 | That holds in every run |
| `Feeding.NeverRefused` | generator-agent/cmd/run-tsload/src/load.c:444-452 | In every run wl_provide_step answers OK each time, and queues behind what is queued |
| `Feeding.ExecutedAsSupplied` | generator-agent/lib/libtsload/src/worker.c:92-119 | The j-th step executed has exactly the count of the j-th step of the file |
| `Feeding.FinishedMeansAllExecuted` | generator-agent/lib/libtsload/src/worker.c:99-109 | A workload that finishes while no notice is waiting has executed the whole file, up to a bad line |
| `Feeding.RunsEnd` | generator-agent/cmd/run-tsload/src/load.c:187-204 | No run has more steps than the work there is at its start |
| `Feeding.NobodyBlocked` | generator-agent/cmd/run-tsload/src/load.c:187-204 | A step in hand or owed can always be taken on, and a running workload can always take its next step |
| `Feeding.StuckMeansOver` | generator-agent/lib/libtsload/src/worker.c:99-119 | Where nothing can happen any more the workload has finished or was given up, with no notice waiting and no step in hand |
| `Feeding.AbortedExactly` | generator-agent/cmd/run-tsload/src/load.c:270-304 | In every run the main thread gives a workload up if and only if one of the first 16 lines of its file is no number; otherwise the workload runs |
| `Feeding.WholeFileExecuted` | generator-agent/lib/libtsload/src/worker.c:92-119 | If notices are served before the queue runs dry, every run that has come to its end has executed every step of its file in order, up to a bad line, however many steps there are; nothing if a bad line is among the first 16 |
| `Shares.DistributeRequests` | generator-agent/lib/libtsload/src/threadpool.c:212-236 | The bit loop leaves in the array the shares that its rounds attach, for any random values and RAND_MAX for which it ends |
| `Shares.SumOfShares` | generator-agent/lib/libtsload/src/threadpool.c:212-236 | The shares sum to def for each item plus the requests attached |
| `Shares.SharesAddUp` | generator-agent/lib/libtsload/src/threadpool.c:246-260 | The workers' shares of a step sum to its requests |
| `Shares.FirstDrawDecides` | generator-agent/lib/libtsload/src/threadpool.c:221-235 | With a RAND_MAX above 2 to the 30th the first draw is never replaced: every round attaches a request if it is not zero, and if it is zero none does, so that the loop never ends |
| `Shares.EachRoundAttaches` | generator-agent/lib/libtsload/src/threadpool.c:221-235 | If no draw is zero every round attaches a request, so the loop ends |
| `Shares.EvenExactly` | generator-agent/lib/libtsload/src/threadpool.c:212-236 | No two shares differ by more than one if and only if RAND_MAX is above 2 to the 30th, or no more requests are left over than the first non-zero draw has bits |
| `Requests.ThreadPool.constructor` | generator-agent/lib/libtsload/src/threadpool.c:44-56 | All worker lists start empty |
| `Requests.ThreadPool.CreateRequest` | generator-agent/lib/libtsload/src/workload.c:348-366 | A request carries the current step and the next id |
| `Requests.ThreadPool.DistributeRequests` | generator-agent/lib/libtsload/src/threadpool.c:246-273 | Every worker list is extended by its share of the ids, in order, the shares sum to the requests of the step, and the counter ends there |
| `Requests.NewListsAreAll` | generator-agent/lib/libtsload/src/threadpool.c:262-270 | The lists of all workers together hold the ids 0 to n - 1, each once |
| `RequestFlow.StepKeepsInv` | generator-agent/lib/libtsload/src/worker.c:159-196 | Each step of the hand-off keeps every created request in exactly one place |
| `RequestFlow.RunKeepsInv` | generator-agent/lib/libtsload/src/worker.c:86-133 | That holds in every run of control thread, workers and report thread |
| `RequestFlow.EachRequestOnce` | generator-agent/lib/libtsload/src/worker.c:145-196 | Each id of each started step is in exactly one place once, nothing else is anywhere, no request is run twice, and finished means run |
| `RequestFlow.ReportedChainDivided` | generator-agent/lib/libtsload/src/worker.c:175-185 | In a reported chain the finished requests are exactly a front part, and the rest were not run |
| `RequestFlow.RestLeftByInterrupt` | generator-agent/lib/libtsload/src/worker.c:159-196 | In every run a chain is pushed with a rest only if its worker was interrupted between the splice that made the chain and its push |
| `RequestFlow.InterruptStops` | generator-agent/lib/libtsload/src/worker.c:175-182 | After an interrupt a worker ends the request it is in, and runs no other of its chain |
| `RequestFlow.NoInterruptNoRest` | generator-agent/lib/libtsload/src/worker.c:159-196 | In a run without interrupts every chain in the queue or reported has been run to its end |
| `RequestFlow.WholeTurn` | generator-agent/lib/libtsload/src/worker.c:159-196 | A worker that nobody interrupts takes its whole list, runs all of it in order and pushes it as one chain |
| `RequestFlow.ReportedInOrder` | generator-agent/lib/libtsload/src/workload.c:396-433 | Chains are reported in the order in which they were pushed, each as it was pushed |
| `RequestFlow.StepsInOrder` | generator-agent/lib/libtsload/src/worker.c:86-133 | The latest step of a workload is the number of its steps started, less one |
| `RequestFlow.StepRecorded` | generator-agent/lib/libtsload/src/workload.c:409-422 | A step started with these shares has their sum as its count from then on |
| `RequestFlow.QuiescentAllReported` | generator-agent/lib/libtsload/src/workload.c:396-433 | Once lists and queue are empty and workers idle, the reported chains hold every request created, each once |
| `RequestFlow.QuiescentAllFinished` | generator-agent/lib/libtsload/src/worker.c:145-196 | And if no worker was ever interrupted, every request created is finished then |
| `SyncQueue.Queue.constructor` | generator-agent/lib/libtscommon/src/syncqueue.c:35-36 | An empty queue |
| `SyncQueue.Queue.Push` | generator-agent/lib/libtscommon/src/syncqueue.c:93-122 | Appends one item; signals if and only if the queue was empty; the assertion on head and tail holds |
| `SyncQueue.Queue.Pop` | generator-agent/lib/libtscommon/src/syncqueue.c:52-86 | Takes the first item, or finds the queue empty; the tail is null while there is at most one element |
| `QueueWakeup.StepKeepsInv` | generator-agent/lib/libtscommon/src/plat/posix/tutil.c:54-69 | Each locking, waiting, signalling and linking step keeps: a consumer that waits beside a non-empty queue has a signal coming |
| `QueueWakeup.RunKeepsInv` | generator-agent/lib/libtscommon/src/syncqueue.c:52-122 | That holds in every interleaving of one consumer and any number of producers |
| `QueueWakeup.NoLostWakeup` | generator-agent/lib/libtscommon/src/syncqueue.c:62-69 | A blocked consumer, with no producer inside the lock, means an empty queue |
| `QueueWakeup.FirstInFirstOut` | generator-agent/lib/libtscommon/src/syncqueue.c:52-122 | What is popped is what was pushed, in order |
| `QueueWakeup.SomebodyCanGoOn` | generator-agent/lib/libtscommon/src/plat/posix/tutil.c:54-69 | The two locks never deadlock |
| `QueueWakeup.QueueIsExclusive` | generator-agent/lib/libtscommon/src/syncqueue.c:99-121 | Only one thread at a time links or unlinks |
| `QueueWakeup.PushedAreArrived` | generator-agent/lib/libtscommon/src/syncqueue.c:93-122 | In every run each item a producer came with is pushed once, or is still waiting to be |
| `QueueWakeup.EachReturnPopsOne` | generator-agent/lib/libtscommon/src/syncqueue.c:52-86 | The consumer has taken as many items as it has come back from squeue_pop, or one more if it is just about to |
| `QueueWakeup.PopAlone` | generator-agent/lib/libtscommon/src/syncqueue.c:52-86 | With nobody in its way a consumer takes the first item in three steps and leaves the locks free |
| `QueueWakeup.SleepAlone` | generator-agent/lib/libtscommon/src/syncqueue.c:62-69 | With nothing to take it goes to sleep, leaving both locks free |
| `QueueWakeup.PushAlone` | generator-agent/lib/libtscommon/src/syncqueue.c:93-122 | A producer that finds items there puts its own behind them and leaves without touching the event |
| `QueueWakeup.PushWakes` | generator-agent/lib/libtscommon/src/syncqueue.c:99-121 | A producer that finds nothing there also wakes a consumer that sleeps, and leaves both locks free |
| `QueueWakeup.WokenLooks` | generator-agent/lib/libtscommon/src/plat/posix/tutil.c:54-69 | A woken consumer goes back to look at the queue |
| `HashMap.HashMap.constructor` | generator-agent/lib/libtscommon/src/hashmap.c:41-49 | An empty map |
| `HashMap.HashMap.Insert` | generator-agent/lib/libtscommon/src/hashmap.c:75-115 | Refuses an equal key and changes nothing, or adds exactly one entry |
| `HashMap.HashMap.Find` | generator-agent/lib/libtscommon/src/hashmap.c:170-186 | The entry of the key, or null if there is none |
| `HashMap.HashMap.Remove` | generator-agent/lib/libtscommon/src/hashmap.c:126-165 | Removes exactly that entry, or reports that it is not there and changes nothing |
| `HashMap.HashMap.Walk` | generator-agent/lib/libtscommon/src/hashmap.c:205-255 | Visits entries at most once, keeps exactly those not answered REMOVE, stops at the first STOP with that entry, and otherwise has visited all |
| `HashMap.HashMap.WalkChain` | generator-agent/lib/libtscommon/src/hashmap.c:213-247 | The same for one bucket, leaving later buckets alone |
| `LinkedList.List.AddTail` | generator-agent/lib/libtscommon/include/list.h:86-121 | Appends the node |
| `LinkedList.List.Del` | generator-agent/lib/libtscommon/include/list.h:130-153 | Takes exactly that node out and leaves it poisoned |
| `LinkedList.List.SpliceInit` | generator-agent/lib/libtscommon/include/list.h:317-367 | Moves all nodes to the front of the other list and leaves this one empty |
| `LinkedList.List.Empty` | generator-agent/lib/libtscommon/include/list.h:228-231 | The head linked to itself means no nodes |
| `Base64.TablesAgree` | generator-agent/lib/libjson/include/libbase64++/libbase64++.h:70-95 | The character for a six-bit value is in the alphabet and converts back to that value |
| `Base64.TablesAgreeBack` | generator-agent/lib/libjson/include/libbase64++/libbase64++.h:70-95 | The six bits of a character of the alphabet give that character back |
| `Base64.CharIsTableOne` | generator-agent/lib/libjson/include/libbase64++/libbase64++.h:70-95 | The characters are those of table 1 of RFC 4648, and the padding is the equals sign |
| `Base64.EncodeBytes` | generator-agent/lib/libjson/include/libbase64++/libbase64++.h:118-171 | The loop and the left-over bytes give the described encoding |
| `Base64.EncodingShape` | generator-agent/lib/libjson/include/libbase64++/libbase64++.h:104-107 | The length is always the calculated one, and padding is only the last one or two characters, by the number of bytes left over |
| `Base64.EncodingBits` | generator-agent/lib/libjson/include/libbase64++/libbase64++.h:118-171 | Three bytes are written as the four six-bit parts of one 24-bit number, highest first; one or two left over are filled up with zero bits and padded |
| `Base64.AcceptedExactly` | generator-agent/lib/libjson/include/libbase64++/libbase64++.h:178-225 | The checks accept exactly a positive multiple of four alphabet characters, of which the last one or two may be padding |
| `Base64.DecodeText` | generator-agent/lib/libjson/include/libbase64++/libbase64++.h:174-267 | The loop and the padded end give the described bytes, and a text not accepted gives the empty string |
| `Base64.DecodeUndoesEncode` | generator-agent/lib/libjson/include/libbase64++/libbase64++.h:118-267 | Decoding what was encoded gives the bytes back, for every byte string |
| `Base64.EncodeUndoesDecodeExactly` | generator-agent/lib/libjson/include/libbase64++/libbase64++.h:174-267 | Encoding what was decoded gives the text back if and only if the bits left over by padding are zero |

## Left out

- Cells of 32 fragments and runs of whole cells: `mp_bitmap_alloc_cells`, `mp_bitmap_free_cells`, and a free of 32 fragments, whose mask needs a shift by the word size.
- The search for a cell over the bitmap of a pool (`mp_bitmap_alloc`), retry sleeps and the SLAB caches (`mp_cache_*`).
- `mp_realloc`, the list of heap pages and their lifetime: one page is modelled, and `HeapPage.Page.Free` reports when it is empty.
- Real addresses: offsets in units stand for them, and the comparison of `qsort`, which truncates an address difference, is taken as address order; headers are one unit, as with GCC.
- FragPool: a fragment whose pointer is freed twice, or freed while being written, is not modelled; each live pointer is freed once.
- JSON comments inside a container: a comment in front of an element or a name makes the parser's result `Undefined`, and the comments that nodes carry are not modelled.
- Floating point numbers, except as texts the reader takes for numbers: `_ftoa` and `atof` are not modelled.
- JSONStream, JSONPreparse, mutex and memory callbacks, reference counts, duplication, and the editing functions of JSONNode other than the setters.
- `internalJSONNode::IsEqualTo`: it compares numbers as floating point.
- Writing a partly fetched tree with indentation: that fetches everything, and then differs from the print of `JsonTree` only in names, as the compact writing does.
- JsonReparse.RewriteComesBack: one way only. Some names with quotes come back, where the quotes balance.
- JsonNames.UnsafeNameIsLost: nothing is said of a name that ends in a backslash, `u` and a backslash, whose escape reaches over the quote masked behind it, nor of names behind the first one.
- JsonNodes: the floating-point member of `_value`, and what its union leaves in the members not written last.
- JsonLazy: children are values, so that two references to one node are not modelled; `JsonNodes` has objects, one level deep.
- JsonParse: `parse_unformatted` and the global error callbacks are not modelled.
- JsonStrip: the stripper's growth of its buffer and its `JSON_LESS_MEMORY` variant are not modelled.
- JsonValidate: `isValidPartialRoot` is not modelled; a read past the end is a result of its own.
- Reading the steps file: `fgets` and `feof` are a finite list of lines, of which one that is no number ends the steps.
- Shares: `bit` and the shares are numbers without bound; the loop is described for the runs in which it ends.
- RequestFlow: sleeping and waking of workers, time and the start of a workload are free choices of when a step happens; the flags other than FINISHED are not modelled.
- Requests: `rq_thread_id` is the index of the worker's list.
- QueueWakeup: `squeue_destroy`, several consumers and fairness are not modelled; a waiting thread may also wake up by itself.
- HashMap: keys are compared by equality, and an inserted item that is not in the map has no next item, as the code takes for granted; `hash_map_destroy`, the string hash and the mutex are not modelled, so neither is that `hash_map_find` reads the head of the chain before it locks.
- LinkedList: the other list operations of `list.h`; a poisoned link is null.
- Base64: `find_first_not_of` is membership in the alphabet, though the code gives it the table without a terminating NUL; the tables are written by their ranges.
- Words: a value is a number below 2 to the 32nd, and shifts and masks are written out on it.
- Threads, sockets, the agent, modules, logging, option parsing and the platform layer other than events.
