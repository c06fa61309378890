# Animula, modelled and proved in Dafny

Animula is a small Scheme virtual machine for microcontrollers.  This project models the parts of it whose correctness is hard to see from the code, in the form the code has, and proves what they are for.  `dafny verify dfyconfig.toml` checks everything.

| file | what it models |
|---|---|
| `Collector.dfy` | TinyGC as a whole (`tinygc.c`): collection, allocation, weak links, finalizers, the heap ledger, and runs of requests |
| `ObjectTable.dfy`, `ObjectLinks.dfy`, `Pointers.dfy` | its table of objects, the five lists an objlink can be on, the interior-pointer search, marking |
| `ChainTables.dfy` | its tables of weak links and finalizers |
| `Roots.dfy` | its list of root intervals |
| `Handshake.dfy` | its stop-the-world protocol for threads |
| `Failures.dfy` | two runs of TinyGC that end badly |
| `RankBalancedTree.dfy`, `SymbolTable.dfy`, `ActiveRoots.dfy` | the rank-balanced tree of `inc/rbtree.h`, the symbol table that uses it, and the order of the active roots that use it |
| `Frames.dfy` | the call protocol of the virtual machine (`inc/vm.h`) on its byte stack |
| `Bytecode.dfy` | the instruction format: an encoder from the grammar of `inc/bytecode.h`, and the decoder of `vm.c` |
| `Rationals.dfy` | exact arithmetic (`primitives.c`, `type_cast.c`, `inc/lib.h`) |
| `NodePool.dfy` | the preallocated list nodes of the other collector (`gc.c`) |
| `Words.dfy`, `Octets.dfy`, `Chains.dfy`, `Options.dfy` | machine words, bytes, chains of hash tables, options |

Objects that the code updates in place are classes with its fields, its loops are loops, and every such method is proved against a specification on values: sets, maps, sequences, multisets and reachability in a graph.

## How things are modelled

- Memory of TinyGC is a map from addresses to words, the word size (4 or 8 bytes) a parameter.  Chains and lists linked through `next` fields are sequences in fields of their owner; hash tables are sequences of chains.  What `malloc` returns is any memory that is aligned, does not overlap what is in use and is no more than there are addresses, or nothing.  The configuration has weak links and finalizers and no `GC_GCJ_SUPPORT`.
- `Graph` is the memory as a graph of objects, in which an edge is the code's own word-to-object search.  A collection is proved to keep exactly what paths from the seeds lead to.
- The tree keeps the header's rank as a ghost field, with rank -1 for the empty tree and 0 for a leaf (`inc/rbtree.h:80-88` says both 0 and 1 of the latter), and the key order as a ghost sequence.
- The handshake is a state machine whose steps are single reads and writes of the shared flags.  Threads register, unregister, go inactive, exit and get signals late.  A handler is assumed to find its own thread in one step: its walk along the thread table, without the lock, is not modelled.
- Frames are bytes on the stack.  Programs are trees of actions, bodies and tail calls; their meaning, independent of the machine, is evaluation with an environment.
- Rationals are objects of a type and a 32-bit word.  Their values are real numbers; a result that goes to floating point has a value that is not modelled.
- The number of tree nodes, threads, objects, actions, instructions and requests in a run is not bounded anywhere.

## What turned out false

Where the code does not do what it is for, the exact condition is proved next to a case that fails.

- Sums, differences and products of rationals that are zero fault: both gcd functions divide by their second argument (`inc/lib.h:31`, `inc/lib.h:41`).  `WideRight` is an equivalence with "not zero".
- `_int_add` converts 64-bit terms to the 32-bit arguments of `gcd`.  Terms below 2^31 lose nothing by it (`SmallSuffice`); in general the sum is right if and only if their low 32 bits suffice (`BitsSuffice`, `NarrowRight`).  `NarrowWrong` has a sum that faults and one that comes out wrong.
- Dividing by zero with a rational operand faults in `gcd64` before the test for it (`primitives.c:540-546`); with two integers the test comes first.  `IntDiv` has both cases.
- Subtracting the smallest integer gives a floating-point number even where the difference is a small integer.
- An instruction of the grammar reads back as written exactly if it is `Faithful`.  The decoder takes other bytes for it than the grammar in these cases: extended globals take a byte of the next instruction, references to locals above 255 and assignments to them lose the upper bits, vector access panics, the empty list and the unspecified value push nothing, and strings stop at 256 bytes.  The code loses a part when it stores it in these: an exact complex number whose second part is negative, because its sign extends over the first part (`vm.c:716`); a closure on the stack with a frame size from 64 on, which spills into the entry (`vm.c:1072`); and a mutable byte vector that is not empty, whose bytes are skipped (`vm.c:749-753`).  `PartsLost` has two numbers that are stored as one.  The printer shows both parts of such a number only if the second is below 16 (`PrintedParts`).
- A return address 0xFFFF reads as an empty slot and a frame pointer 0xFFFF as none; a tail call needs an arity below 32, because the shadow field has five bits.
- Aligning a root interval wraps around for a start in the last word of memory (`AlignmentExact`, `AlignmentWraps`).
- A weak link whose word lies in a freed object is removed exactly if its hidden address shares a bucket with the last page of the object or the one before (`Sought`, `DeleteInside`), which is all of them when the words lie on at most two pages.  With three pages in a block of four, links on the lowest page always stay, whatever the seed of the table (`ThreePagesSought`, `LinkMissed`); in the run of `LinkLeftBehind` the collector later clears the word of one, in memory that is no longer the program's.
- The object that a registered finalizer's client data points at outlives a collection if and only if `has_client_ptrs` is set or something else reaches it (`ClientKept`).  Registering sets the flag only if the client data lies within the bounds of the object table, in which marked objects do not count (`tinygc.c:2516-2519`); in the run of `ClientLost` a finalizer becomes ready with client data that has been freed.
- While the collecting thread lives, `GC_mutator_suspend` can return from its wait if and only if every thread that it has yet to look at and that has not answered is alive (`SuspendReturns`).  A thread that exits between the signal and its answer is waited for forever (`DeadThreadBlocks`), which can happen (`DeadThreadWaitedFor`).
- The comparator of the tree of active roots truncates the difference of two addresses to an int (`inc/obg_gc.h:73-77`).  It is the order the tree needs exactly where `OrderKept` and `OrderNearby` say; `NoOrder` has a cycle.
- Interning does not make symbols of one name the same: a symbol keeps the string it was made from, and `symbol_eq` compares these addresses (`SameName`).
- `create_symbol_table` comes to the beginning of every name exactly if all names begin in the first 2^16 bytes and none but the last has more than 256 characters (`PlacesRight`); `LongNameStrays` has a table of two names of which it reads the second wrong.

## Model

| member | source | states |
|---|---|---|
| `RankBalancedTree.Tree.Insert` | inc/rbtree.h:756-789 | an invariant-keeping insertion: afterwards all pointers, the key order and every rank difference are right again; the key set gains exactly the new key, and a duplicate changes no field of any node |
| `RankBalancedTree.Tree.Remove` | inc/rbtree.h:710-754 | the same for removal of a node with no, one or two children: exactly that node and its key leave |
| `RankBalancedTree.Tree.InsertColor` | inc/rbtree.h:557-616 | from a tree whose only fault is the edge above the risen node, the climb with promotions, single and double rotations ends in a faultless tree with the same nodes in the same order |
| `RankBalancedTree.Tree.RemoveColor` | inc/rbtree.h:618-708 | from a tree whose only fault is one subtree a rank too low, or a node that became a leaf, the climb ends in a faultless tree with the same nodes in the same order |
| `RankBalancedTree.Tree.RotateLeft` | inc/rbtree.h:469-483 | a left turn keeps parent and child pointers consistent and the key order unchanged, and moves exactly the links the macro moves |
| `RankBalancedTree.Tree.RotateRight` | inc/rbtree.h:485-499 | the mirror image of a left turn |
| `RankBalancedTree.Tree.SwapChild` | inc/rbtree.h:457-467 | the parent, or the root, refers to the new child where it referred to the old one |
| `RankBalancedTree.Tree.Find` | inc/rbtree.h:791-808 | finds the node with the key if and only if there is one, within a number c of comparisons with 2^c <= (n+1)^2 |
| `RankBalancedTree.Tree.HeightBound` | inc/rbtree.h:80-95 | the header's bound on the height h of a tree of n nodes, 2 lg (n+1), as 2^h <= (n+1)^2 |
| `RankBalancedTree.Tree.HeightByRank` | inc/rbtree.h:80-95 | the height of every subtree is bounded by its rank, and the rank by its number of nodes |
| `RankBalancedTree.Tree.NFind` | inc/rbtree.h:810-831 | the node with the least key not below the given one, and none exactly when all keys are below |
| `RankBalancedTree.Tree.MinMax` | inc/rbtree.h:885-899 | the first or the last node in key order |
| `RankBalancedTree.Tree.Next` | inc/rbtree.h:833-857 | the node behind the given one in key order, none behind the last |
| `RankBalancedTree.Tree.Prev` | inc/rbtree.h:859-883 | the node before the given one in key order, none before the first |
| `RankBalancedTree.Tree.NextThenPrev` | inc/rbtree.h:833-883 | RB_PREV undoes RB_NEXT |
| `RankBalancedTree.Tree.ForEach` | inc/rbtree.h:930-931 | the loop visits every node exactly once, in increasing key order |
| `RankBalancedTree.Tree.Run` | inc/rbtree.h:557-789 | after any run of insertions and removals the tree is a rank-balanced search tree, its keys are what a set would hold, and the height bound holds |
| `ActiveRoots.OrderKept` | inc/obg_gc.h:73-77 | the comparator of the tree of active roots orders two addresses, of 32 or 64 bits, as the tree needs exactly if the low 32 bits of their distance are a positive int |
| `ActiveRoots.OrderNearby` | inc/obg_gc.h:73-77 | so it does for addresses less than 2^31 bytes apart, and with 32-bit addresses for no other set |
| `ActiveRoots.NoOrder` | inc/obg_gc.h:73-77 | three addresses each of which comes before the next, and two that count as equal |
| `SymbolTable.MakeSymbol` | symbol.c:45-53 | afterwards exactly the names are interned that were or that agree with this one up to 256 characters; a name that was interned adds no node; the symbol refers to the string it was made from, not to the one interned |
| `SymbolTable.SameName` | symbol.c:139-142 | when the second name is found interned as the first, no node is added, and yet the two symbols are eq if and only if they were made from one string |
| `SymbolTable.CreateSymbolTable` | symbol.c:78-109 | the names the walk over the bytes of the table comes by are interned, and no others; it leaves the bytes exactly if one of them has no zero behind it |
| `SymbolTable.NumbersOrdered` | inc/symbol.h:40-43 | the numbers that stand for names in the tree are ordered, and equal, exactly as the comparison of at most 256 characters orders the names |
| `SymbolTable.ComparedEqual` | inc/symbol.h:40-43 | names compare equal if and only if they agree in their first characters |
| `SymbolTable.PlacesRight` | symbol.c:82-90 | the walk, with its 16-bit offset and its limit of 256 characters, comes to the beginning of every name if and only if all names begin in the first 2^16 bytes and none but the last is longer than the limit |
| `SymbolTable.NamesRead` | symbol.c:82-90 | and then it reads the names that were written |
| `SymbolTable.LongNameStrays` | symbol.c:82-90 | behind a name of 257 characters it reads an empty name in place of the next one |
| `SymbolTable.CleanSymbolTable` | symbol.c:111-137 | taking the least node again and again ends, with an empty tree, through balanced trees only |
| `ObjectLinks.SamePageSameHash` | tinygc.c:1693-1701 | the bucket depends on the 256-byte page of an address only |
| `ObjectLinks.MaskAfterSum` | tinygc.c:2695-2706 | adding up sizes with their tag bits and masking the sum once gives the sum of the sizes modulo the tag |
| `ObjectLinks.LinkedEffect` | tinygc.c:2614-2675 | linking an objlink in at the first smaller base keeps the chains sorted and in their buckets, and adds exactly that objlink |
| `ObjectLinks.UnlinkedEffect` | tinygc.c:1736-1752 | unlinking one keeps them so, and removes exactly that objlink |
| `ObjectLinks.CoveringIsEntry` | tinygc.c:1692-1720 | in a sorted chain of disjoint objects the one that contains an address is the first whose base is not above it |
| `Pointers.UniqueHit` | tinygc.c:1692-1738 | of disjoint objects a word points at one at most |
| `Pointers.NearHits` | tinygc.c:1701-1720 | an address less than 256 bytes into an object always points at it |
| `Pointers.BaseHits` | tinygc.c:1692-1720 | a base address points at its object in both scanning modes |
| `Pointers.Graph.ReachClosed` | tinygc.c:1854-1889 | what paths from the seeds lead to is closed under pointing and contains the seeds |
| `Pointers.Graph.ReachLeast` | tinygc.c:1854-1889 | and it is the least such set |
| `Pointers.Graph.ProperPathsReach` | tinygc.c:1653-1758 | an object that a chain of base pointers, or of pointers less than a page into objects, leads to from a seed is among what marking reaches |
| `Pointers.ClearedClosed` | tinygc.c:2117-2173 | zeroing words leaves a set that was closed under pointing closed |
| `ObjectTable.ObjHtable.constructor` | tinygc.c:1033-1077 | an empty table satisfies the invariant: every objlink in one place, chains sorted and in their buckets, bounds around the table, count equal to its size |
| `ObjectTable.ObjHtable.Locate` | tinygc.c:1692-1720 | the two probes of descending chains, one bucket of which mixes several pages, find an objlink exactly when some object of the table is hit by the word in the sense of a plain search over all of them |
| `ObjectTable.ObjHtable.Mark` | tinygc.c:2306-2355 | the one object hit leaves the table for the follow or the marked list, and nothing changes when there is none |
| `ObjectTable.ObjHtable.ScanRegion` | tinygc.c:1653-1758 | of the table exactly the objects that some word of the region points at leave, each to the list its tag says |
| `ObjectTable.ObjHtable.Follow` | tinygc.c:1860-1888 | one round marks exactly what the object at the head points at: these and no others leave the table; and it lowers (table size, follow length) |
| `ObjectTable.ObjHtable.ScanFollowable` | tinygc.c:1854-1889 | the loop ends; unless it is stopped nothing is left to follow, and marking has stayed within what is to be reached |
| `ObjectTable.ObjHtable.MarkingComplete` | tinygc.c:1854-1889 | with nothing left to follow the table holds exactly the objects the seeds do not reach |
| `ObjectTable.ObjHtable.Enter` | tinygc.c:2614-2675 | insertion keeps all table invariants, counts and byte sums |
| `ObjectTable.ObjHtable.Add` | tinygc.c:2614-2675 | the new object's objlink is taken from the unlinked list into the table, and nothing else moves |
| `ObjectTable.ObjHtable.Get` | tinygc.c:2723-2752 | an object found contains the address; none is missed whose base is less than 256 bytes below it |
| `ObjectTable.ObjHtable.RefillFind` | tinygc.c:2763-2834 | the objects in table, follow and marked list stay the same as a set; one that contains the address is found if it was on a list, and otherwise both lists are empty afterwards |
| `ObjectTable.ObjHtable.SomeRefill` | tinygc.c:2836-2894 | exactly the first objlinks of one list, in order and as many as asked for, return to the table |
| `ObjectTable.ObjHtable.Lookup` | tinygc.c:3910-3931 | the search followed by the refill finds every object that contains the address, but for one in the table with its base a page or more below |
| `ObjectTable.ObjHtable.Base` | tinygc.c:3910-3931 | GC_base gives the base of the object containing the address, always when the displacement is under 256 bytes, and 0 only for the exception above; no object changes state |
| `ObjectTable.ObjHtable.RemoveAll` | tinygc.c:2677-2712 | the table empties into the free list; the bytes removed are the exact sum of the sizes modulo the tag |
| `ObjectTable.ObjHtable.FreeHead` | tinygc.c:2905-2935 | the objlink of the first pending object becomes unlinked, everything else stays where it is |
| `ObjectTable.ObjHtable.Grow` | tinygc.c:3060-3073 | a table twice the size replaces the empty one |
| `ObjectTable.ObjHtable.GrowKeepingAll` | tinygc.c:3319-3345 | growing the full table sends every object to the marked list and loses none |
| `ObjectTable.ObjHtable.AddBlanks` | tinygc.c:3237-3270 | the objlinks of a new block become unlinked ones |
| `ObjectTable.ObjHtable.LiveSound` | tinygc.c:2723-2752 | objects that are not pending are disjoint |
| `ChainTables.HashInRange` | tinygc.c:498-500 | the multiplicative hash selects one of the buckets, for every word and seed |
| `ChainTables.StopFinds` | tinygc.c:2244-2250 | leaving a descending chain at the first smaller key never misses the key searched for |
| `ChainTables.ChainTable.Find` | tinygc.c:2504-2513 | the chains refine a finite map: a key is found with its value exactly if the map has it |
| `ChainTables.ChainTable.Put` | tinygc.c:2236-2275 | adding or replacing updates the map at that key, the count only for a new one |
| `ChainTables.ChainTable.Delete` | tinygc.c:2523-2537 | deleting removes that key from the map |
| `ChainTables.ChainTable.DeleteRange` | tinygc.c:2277-2300 | range deletion removes the keys of the range that hash to the one bucket, and counts them |
| `ChainTables.ChainTable.Reseed` | tinygc.c:2241-2243 | stirring moves the seed of an empty table only; a table in use keeps its seed, and the map is the same either way |
| `ChainTables.ChainTable.Resize` | tinygc.c:2191-2234 | moving every node to its bucket of the larger table under a new seed keeps the map |
| `Roots.DataRoots.DelInside` | tinygc.c:1126-1152 | exactly the roots inside the interval go; the list stays sorted with gaps and its length sum exact |
| `Roots.DataRoots.Exclude` | tinygc.c:1154-1203 | after that, cutting gives the set difference, unless one root has words on both sides and there is no memory for a second node: then nothing changes |
| `Roots.DataRoots.Add` | tinygc.c:1207-1266 | the union with the aligned interval, unless a detached interval finds no memory: then nothing changes; nodes swallowed are counted |
| `Roots.DataRoots.Swallow` | tinygc.c:1228-1262 | growing a root takes over exactly the roots it then meets |
| `Roots.DataRoots.RemoveRoots` | tinygc.c:3756-3771 | exactly the roots inside the aligned interval go |
| `Roots.DataRoots.ClearRoots` | tinygc.c:3773-3780 | all roots go but one that begins in the first word of memory |
| `Roots.DataRoots.ExcludeRoots` | tinygc.c:3782-3802 | deletion and cutting together are set difference, and when memory is missing the set is unchanged |
| `Roots.AlignmentExact` | tinygc.c:1214-1217 | aligning an interval selects exactly the words inside it if and only if rounding the start up does not wrap, or the end is below one word |
| `Roots.AlignmentWraps` | tinygc.c:1214-1217 | an interval of one byte at the end of memory that aligns to nearly all of memory |
| `Handshake.Preserved` | tinygc.c:1489-1645 | every step of every thread and of the collector keeps the protocol's invariant, for any number of threads |
| `Handshake.WorldStopped` | tinygc.c:1500-1596 | for any run, with late signals and threads on their way out of the round before: past the wait every other active thread is in the handler's loop and has published its stack |
| `Handshake.HeldUntilResume` | tinygc.c:1924-1933 | none of them leaves, or changes what it published, before GC_inside_collect is 0 |
| `Handshake.CanAnswer` | tinygc.c:1895-1938 | a thread the collector waits for can always take a step of its handler |
| `Handshake.AnswersWithinFour` | tinygc.c:1895-1938 | and has answered after four of them, whatever happens in between |
| `Handshake.CollectorGoesOn` | tinygc.c:1500-1645 | the collecting thread, even when interrupted by a late signal, can always return to its work |
| `Handshake.WaitEnds` | tinygc.c:1575-1596 | once all have answered the wait ends after a look at each thread |
| `Handshake.SuspendReturns` | tinygc.c:1577-1594 | from any reachable state of the wait in which the collecting thread has not exited, GC_mutator_suspend can return if and only if every thread it has yet to look at and that has not answered is alive |
| `Handshake.DeadThreadBlocks` | tinygc.c:1577-1594 | a thread that exits after the signal and before its answer is waited for in every continuation: GC_mutator_suspend never returns |
| `Handshake.DeadThreadWaitedFor` | tinygc.c:1500-1594 | two threads can get there from the start |
| `Collector.GcData.constructor` | tinygc.c:1033-1077 | the initial state satisfies all invariants, the accounts included |
| `Collector.GcData.ScanClear` | tinygc.c:2117-2173 | exactly the weak links to objects left in the table go, and exactly their words become zero |
| `Collector.GcData.MarkReady` | tinygc.c:2357-2404 | ready finalizers' objects and client data are marked, and nothing beyond what is to be reached |
| `Collector.GcData.MarkClients` | tinygc.c:2357-2404 | the same for client data in the table of finalizers |
| `Collector.GcData.AfterCollect` | tinygc.c:2406-2449 | exactly the finalizers of unmarked objects become ready, each once, and exactly these objects are marked after all |
| `Collector.GcData.CoreMalloc` | tinygc.c:3116-3147 | memory is charged to the free bytes first and the heap grows for the rest; it never passes the maximum and the ledger balances, although the test against the maximum is made on words |
| `Collector.GcData.EnlargedFits` | tinygc.c:3124-3127 | that test wraps around for no block that fits into the address space beside what is in use |
| `Collector.GcData.HeapExpand` | tinygc.c:1079-1122 | heap size and free bytes grow by the same amount, never past the maximum, or not at all, although rounding and adding up sizes may wrap around |
| `Collector.GcData.FreeSpareDlinks` | tinygc.c:2175-2189 | as many spare nodes are freed as asked for, at least one, or all there are, and the books stay balanced |
| `Collector.GcData.DeleteInside` | tinygc.c:2913-2928 | exactly the links go whose words lie in the object and whose hidden addresses share a bucket with its last page or the one before |
| `Collector.TwoPagesSought` | tinygc.c:2913-2928 | these are all links inside the object when the hidden addresses of its words lie on at most two pages |
| `Collector.ThreePagesSought` | tinygc.c:2913-2928 | on three pages of one block of four, in a table of the first size with any seed, they are exactly the links that are not on the lowest page |
| `Collector.LinkMissed` | tinygc.c:2913-2928 | so of the 768 bytes at 0x1000 the link in the last word stays, whatever the seed |
| `Failures.LinkLeftBehind` | tinygc.c:2117-2173 | a run from an empty collector, with any seed, in which that link outlives its object, and a later collection writes zero into the freed memory |
| `Collector.GcData.FreeOne` | tinygc.c:2905-2935 | one pending object is freed, its objlink becomes unlinked, live objects stay, and exactly the links found inside the object go |
| `Collector.GcData.FreePending` | tinygc.c:2896-2948 | pending objects are freed in order until enough bytes are free or none is left, and exactly the links found inside them go; pending_free_size stays the exact sum while that is below the tag |
| `Collector.GcData.AllocHroots` | tinygc.c:3149-3179 | memory for a table, freeing everything pending if need be, is never counted twice |
| `Collector.GcData.SweepTable` | tinygc.c:3049-3059 | what is left in the table becomes pending and nothing else does; its bytes move from one account to the other |
| `Collector.GcData.GrowIfCrowded` | tinygc.c:3060-3073 | the empty table doubles if more than half of the objects survived, these before filled three quarters of it and there is memory, and stays as it is otherwise; nothing but pending objects is freed on the way |
| `Collector.GcData.Collect` | tinygc.c:2950-3114 | a completed collection leaves alive exactly what marking reaches from ready finalizers, stack and roots, and from objects whose finalizers just became ready; only the rest becomes pending; exactly the weak links and finalizers of unmarked objects are affected; a collection stopped half-way changes no object's fate, and one that may not stop is completed; the accounts stay exact while sums stay below the tag |
| `Collector.GcData.HeldSeed` | tinygc.c:1785-1823 | an object whose base is in a word of the scanned stack is a seed of every collection |
| `Collector.GcData.PathKept` | tinygc.c:2950-3114 | after a completed collection no object that a path of base pointers, or of pointers less than a page into objects where these count, leads to from the stack or the roots is pending |
| `Collector.GcData.ClientKept` | tinygc.c:2381-2400 | the object that a registered finalizer's client data points at outlives a completed collection if and only if has_client_ptrs is set or marking reaches it in another way |
| `Failures.ClientLost` | tinygc.c:2516-2519 | a run from an empty collector after which a finalizer is ready whose client data points into freed memory: it was registered while its object waited on the marked list, outside of the bounds of the table |
| `Collector.GcData.CollectFor` | tinygc.c:3181-3235 | around an allocation a collection loses no object the stack holds, adds no link or finalizer, loses no finalizer and keeps the heap maximum |
| `Collector.GcData.CoreMallocWithGc` | tinygc.c:3181-3235 | memory obtained is usable and accounted for exactly, whichever mixture of freeing, collecting and expanding it took |
| `Collector.GcData.AllocObjlinks` | tinygc.c:3237-3270 | after success there is an unlinked objlink |
| `Collector.GcData.AddObject` | tinygc.c:3393-3396 | the new object is disjoint from all others, of the size and kind asked for, and cleared unless atomic; the accounts stay exact |
| `Collector.GcData.Recycle` | tinygc.c:3397-3409 | the lazy refill and freeing during an allocation changes no live object |
| `Collector.GcData.Malloc` | tinygc.c:3272-3503 | a new object apart from all others, cleared unless atomic, every object the stack holds still alive, accounts exact while the heap is smaller than the tag |
| `Collector.GcData.Find` | tinygc.c:3948-3958 | the object that contains an address, never one that does not |
| `Collector.GcData.AddDlink` | tinygc.c:2236-2275 | success, duplicate and lack of memory as documented, the map of links updated accordingly |
| `Collector.GcData.RegisterDlink` | tinygc.c:3933-4009 | after success or duplicate the link is to the object named, which is alive; no other link is added or changed; a misaligned or null link is refused; memory is missing only if no spare node could be used, and the link is not there then |
| `Collector.GcData.UnregisterDlink` | tinygc.c:4013-4029 | exactly that link goes, and the result says whether it was there |
| `Collector.GcData.AddDelFinalizer` | tinygc.c:2497-2563 | the table of finalizers as a map: replaced, dropped or added, an addition only with a node; the old one is returned; has_client_ptrs rises exactly if the client data lies within the bounds of the table, and falls when the table empties |
| `Collector.GcData.RegisterFinalizer` | tinygc.c:4033-4124 | after success the object's finalizer is the one given, or none; every finalizer due before is still due or is the one returned; has_client_ptrs is set if the client data lies within the bounds the table has then, and otherwise as it was, but for a reset when all other finalizers became ready on the way |
| `Collector.GcData.TakeReady` | tinygc.c:2565-2579 | ready finalizers are handed out one by one, first come first, and each once |
| `Collector.GcData.AddRoots` | tinygc.c:3806-3812 | the set of roots gains the aligned interval or is unchanged, a collection for the node included |
| `Collector.GcData.RemoveRoots` | tinygc.c:3756-3771 | exactly the roots inside go, and their nodes' bytes are free again |
| `Collector.GcData.ExcludeRoots` | tinygc.c:3782-3802 | set difference when it succeeds, the unchanged set when it does not, with the books balanced |
| `Collector.GcData.Step` | tinygc.c:3272-4155 | every request keeps all invariants; the accounts stay exact while the heap is smaller than the tag; finalizers are added, dropped and handed out and otherwise neither lost nor doubled |
| `Collector.GcData.Run` | tinygc.c:3272-4155 | the same over any run: the five lists partition the objlinks, weak links and finalizers belong to objects that are not pending, total minus free is exactly what is in use, the heap stays within a maximum nobody raised, marked_bytes + bytes_allocd and pending_free_size are the exact sums as long as the heap is smaller than the tag, and a finalizer is handed out at most as often as it was registered |
| `Collector.GcData.BytesWithinHeap` | tinygc.c:3116-3147 | the objects, those pending included, are never more than the heap |
| `Frames.Encode` | inc/vm.h:356-362 | storing and loading a register are inverse |
| `Frames.ReturnAddressKept` | inc/vm.h:356-362 | a return address survives the tail calls of a body if and only if it is not 0xFFFF or nothing would overwrite the empty slot |
| `Frames.FramePointerKept` | inc/vm.h:314-316 | a saved frame pointer comes back if and only if it is not 0xFFFF, which comes back as 0 |
| `Frames.LoopNeedsNoMore` | inc/vm.h:304-310 | any number of tail calls needs no more stack than one |
| `Frames.Vm.Push` | inc/vm.h:92-98 | a push appends the bytes, and stays below the end of the stack |
| `Frames.Vm.Pop` | inc/vm.h:80-84 | a pop returns the bytes on top and removes exactly them |
| `Frames.Vm.SaveEnv` | inc/vm.h:311-323 | the normal prelude pushes one whole frame, to be read back by the restore, and opens a new one |
| `Frames.Vm.FixPc` | inc/vm.h:356-362 | the slot of the return address is filled if it is unset, and nothing else is touched |
| `Frames.Vm.ProcCall` | inc/vm.h:246-256 | a pending shadow frame replaces the locals, and locals begin behind the frame |
| `Frames.Vm.Restore` | inc/vm.h:415-429 | the frame is taken off, all registers have the saved values and the result is on top of what lay below |
| `Frames.Vm.CallTail` | inc/vm.h:225-256 | after a tail call frame and locals are where they were and the locals are exactly the new arguments |
| `Frames.Vm.CallTailOfAnyArity` | inc/vm.h:304-310 | which needs an arity below 32, and fails for every other one: the shadow field has five bits |
| `Frames.Vm.NextRound` | inc/vm.h:225-310 | each round of a tail-recursive loop starts with the same frame, the stack pointer at local + arity * size and exactly the new arguments |
| `Frames.Vm.RunAct` | inc/vm.h:246-429 | any nesting of preludes, argument pushes, calls and restores leaves its value on the stack and every register and byte below as before, pc behind the call; it overflows exactly when its computed need does not fit |
| `Frames.Vm.RunBody` | inc/vm.h:225-429 | a body, through any number of tail calls, returns the value of the substitution semantics and restores its caller |
| `Bytecode.RoundTrip` | inc/bytecode.h:58-128 | reading the bytes the grammar gives an instruction, before any others, gives what shows the instruction and stops at its end if and only if the instruction is faithful: its bytes are taken for what they say (no extended global, no local above 255, no vector access, not the empty list or the unspecified value, no string over 256 bytes) and storing it loses nothing (the second part of an exact complex number is not negative, a closure on the stack has a frame below 64, a mutable byte vector is empty) |
| `Bytecode.BytesTaken` | vm.c:1318-1392 | the bytes of an instruction are taken for it, and no more and no fewer, exactly in the cases above |
| `Bytecode.StoredShows` | vm.c:712-755 | what the code stores shows the constant or closure exactly if no part is lost |
| `Bytecode.PartsLost` | vm.c:712-720 | 0 - 1i and 1 - 1i are stored as the same word, and a frame size of 64 changes the entry of a closure |
| `Bytecode.PrintedParts` | print.c:84-98 | the printer shows both parts of an exact complex number if and only if the second is below 16 |
| `Bytecode.StackClosureLayout` | vm.c:1063-1076 | environment, frame and entry of a closure on the stack come back from their ten, six and sixteen bits if and only if the first two fit |
| `Bytecode.ProgramRoundTrip` | vm.c:1318-1392 | a program is read back from its encoding if and only if all its instructions are faithful: no other way of cutting up the bytes can make up for one that is not |
| `Bytecode.DecodedIsReadable` | vm.c:1318-1392 | whatever bytes are read, the instruction is faithful, a constant or closure as it is stored, an extended global or nothing at all |
| `Bytecode.ReencodedReadsTheSame` | vm.c:1318-1392 | encoding an instruction that what was read shows, and reading it again, gives what was read if and only if it is not an extended global |
| `Bytecode.GlobalsRead` | vm.c:999-1028 | a global above 255 is never read as written: the index is taken from the next instruction |
| `Bytecode.LocalsRead` | vm.c:894-912 | a local is read as written if and only if its offset is below 256 |
| `Bytecode.FreesRead` | vm.c:806-876 | the six bits of the offset and of the frame count of a free variable survive the packing |
| `Bytecode.DecodeShortens` | vm.c:1192-1213 | every instruction uses up at least one byte |
| `Bytecode.Fetcher.NextData` | vm.c:1192-1213 | the next byte while there is one, and a stopped machine afterwards |
| `Bytecode.Fetcher.InterpSingle` | vm.c:781-883 | the method over program counter and code segment reads what the function on byte strings says |
| `Bytecode.Fetcher.InterpDouble` | vm.c:885-953 | every faithful instruction whose encoding is these two bytes is read as itself; the reserved codes, and no others, panic |
| `Bytecode.Fetcher.InterpTriple` | vm.c:955-1036 | the same for the three-byte forms |
| `Bytecode.Fetcher.InterpQuadruple` | vm.c:1038-1083 | every faithful instruction whose encoding is these four bytes is shown by what is read; the reserved codes, and no others, panic |
| `Bytecode.Fetcher.InterpSpecial` | vm.c:1085-1190 | the same for primitives, objects and control |
| `Bytecode.Fetcher.GenerateObject` | vm.c:526-779 | the same for constants in the code, as they are stored: an exact complex number in one word, a mutable byte vector as fresh memory |
| `Bytecode.Fetcher.Fetch` | vm.c:1318-1392 | one turn of the machine reads exactly one instruction, panics or runs out of code as the function says |
| `Bytecode.Fetcher.ReadAll` | vm.c:1318-1392 | turn after turn the machine reads the instructions the function on byte strings finds in the rest of the code, or fails where it does |
| `Bytecode.Fetcher.ReadProgram` | vm.c:1318-1392 | from the encoding of a program it reads that program, and all of it, if and only if all instructions are faithful |
| `Rationals.Remainders` | inc/lib.h:26-44 | the two-step loop computes the greatest common divisor for a non-zero second argument |
| `Rationals.Gcd32` | inc/lib.h:26-35 | a greatest common divisor exactly when the second argument is not zero and neither is the smallest integer |
| `Rationals.Gcd64` | inc/lib.h:37-44 | a greatest common divisor exactly when the second argument is not zero |
| `Rationals.GcdIsGreatest` | inc/lib.h:26-44 | it divides both numbers and no larger number does |
| `Rationals.LowestIsSmallest` | primitives.c:146-176 | every other form of a fraction in lowest terms is a multiple of it |
| `Rationals.LowestFits` | primitives.c:160-175 | a number fits sixteen bits each way if and only if its lowest terms do |
| `Rationals.WideRight` | primitives.c:385-416 | reduction with the 64-bit gcd is exact, or rightly gives up, for every number but zero, where it faults |
| `Rationals.SmallSuffice` | primitives.c:146-176 | terms below 2^31 suffice for the reduction with the int-sized gcd exactly if the numerator is not zero |
| `Rationals.NarrowRight` | primitives.c:146-176 | that reduction is exact, or rightly gives up, if and only if the terms suffice: their low 32 bits have a gcd that the code can take and that reduces the terms as their own gcd does, or leaves them as wide |
| `Rationals.NarrowWrong` | primitives.c:146-176 | beyond that it faults on 65537 + 1/65535 and gets 31879/63488 - 30997/63488 wrong |
| `Rationals.WholeIsInteger` | type_cast.c:51-77 | a result is an integer object exactly when its value is whole |
| `Rationals.Number.CastIfDenominatorIs1` | type_cast.c:51-77 | the value stays, the type changes exactly for denominator 1 |
| `Rationals.CastToRational` | type_cast.c:21-49 | the value stays; refused exactly outside sixteen bits |
| `Rationals.IntAdd` | primitives.c:85-219 | for terms below 2^31 the exact sum in lowest terms if it is representable and floating point otherwise, except that a zero sum of rationals faults; for any terms so if and only if they suffice; integers are exact within 32 bits |
| `Rationals.IntSub` | primitives.c:221-272 | the same for the difference, except that the smallest integer as subtrahend always goes to floating point |
| `Rationals.IntMul` | primitives.c:274-450 | for all exact operands: the exact product if representable, floating point otherwise, a fault exactly for a rational product of zero |
| `Rationals.IntDiv` | primitives.c:452-627 | the exact quotient if representable, floating point otherwise; overflowing cross products are undefined; division by zero panics exactly for two integers or in floating point, and faults otherwise |
| `Rationals.IntGt` | primitives.c:749-809 | the comparison of the exact values, which both operands keep although they may change type; a panic exactly for an integer beyond sixteen bits beside a rational |
| `Rationals.ModuloOfDivisor` | primitives.c:629-633 | congruent to the dividend and of the divisor's sign |
| `NodePool.ObjectListNodes.constructor` | gc.c:85-105 | every node allocated is in one free slot, the pools are empty |
| `NodePool.ObjectListNodes.OnePlace` | gc.c:85-137 | in every reachable state each preallocated node is in exactly one place, a free slot or one place of one pool |
| `NodePool.KeptCounts` | gc.c:814-844 | of a pool, sweeping keeps each node that is not to go as often as it was there, and no other |
| `NodePool.ObjectListNodes.IndexIsTotal` | gc.c:107-137 | the index is the number of nodes in all pools |
| `NodePool.ObjectListNodes.Alloc` | gc.c:107-126 | a node comes out exactly when one is left |
| `NodePool.ObjectListNodes.Recycle` | gc.c:128-132 | a node that is out goes back, and there is always a slot for it |
| `NodePool.ObjectListNodes.Book` | gc.c:988-1051 | the pool gains one node, in front, for the object; the others stay the same |
| `NodePool.ObjectListNodes.FreeFromPool` | gc.c:1242-1256 | the first node for the object, and no other, goes back |
| `NodePool.ObjectListNodes.ReleaseAllFree` | gc.c:814-844 | exactly the nodes of free objects, or all when forced, go back; the rest keeps its order |
| `NodePool.ObjectListNodes.Sweep` | gc.c:846-863 | that for every pool, and a forced sweep brings the index to 0 |
| `NodePool.ObjectListNodes.Clean` | gc.c:150-173 | the final check fails exactly while a pool still has a node |
| `NodePool.ObjectListNodes.PoolMalloc` | gc.c:1053-1125 | the first free object of the pool, if there is one, becomes one of the first generation; no node moves |
| `NodePool.ObjectListNodes.SimpleCollect` | gc.c:1127-1140 | exactly the pool's objects that are not permanent become free |
| `NodePool.ObjectListNodes.TryToRecycle` | gc.c:1145-1157 | exactly the objects with a node in the pools of objects, lists, vectors and pairs become free, permanent ones excepted; these pools keep their nodes and that of closures is emptied |
| `NodePool.ObjectListNodes.RunAndClean` | gc.c:974-1051 | after any run of these, the cleaning of the cache returns every node to the array and passes the final check |

## Left out

- Collector.GcData.Malloc: one round under the lock; repeating it up to `GC_max_retries` times and the call of a ready finalizer in between are not modelled.
- Collector.GcData.Collect: for one thread; the stacks of other threads are covered by `Handshake`, and the bytes of the table of threads are not in the ledger.
- Collector.GcData.Step: a weak link or a finalizer is registered only for an object that a word of the stack points at, where the code's own argument is; a request for any other does nothing.  The same in every run.
- Collector.GcData.Run: such requests do nothing in a run.
- When to collect and by how much to expand (`GC_guess_collect`, `GC_guess_expand_size`), and the values of the hash seeds: any choice is allowed.
- `followscan_size`, `bytes_finalized`, `allocd_before_gc` and other statistics, messages, environment variables and callbacks.
- Detection of roots and stack bounds, dynamic libraries, Windows and Zephyr branches, `GC_finalize_all`, `GC_GCJ_SUPPORT`, `GC_call_with_alloc_lock`.
- The order of chains is modelled, but not the `next` fields themselves: lists are sequences, so linking the same node twice cannot be expressed and is excluded by the proofs on sequences instead.
- Handshake.AnswersWithinFour: a thread is assumed to be scheduled; that the operating system does so is outside of the code.
- SymbolTable.CreateSymbolTable: the copy of the table's bytes that symbols refer to, and the failure to allocate it.
- RankBalancedTree.Tree.Run: keys are compared as integers; the comparator of the active roots is one such order only under the conditions of `ActiveRoots`.
- Frames: heap closures, free variables, variable arguments, primitives, `TAIL_CALL`, `foreach` and `apply_proc`; the byte written past the stack before the check for it.
- Bytecode: what instructions do once read; the object codes a program cannot contain.  Reading a string or byte vector that runs past the code segment is taken for the end of the code.
- Rationals: floating-point values, complex numbers (a panic in the code), equality of numbers, printing.  A cross product in `_int_div` that overflows is undefined; which number a compiler makes of it is not modelled.
- NodePool: which objects a collection of `gc.c` frees, and that freed memory may be handed out again while another node refers to it; list nodes of `list` objects, which come from `malloc`.
- `RB_REINSERT`, augmentation, and the splay and tail-queue macros, which the repository does not use.
- Devices, files, the shell and the console.
