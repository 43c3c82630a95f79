# Models of the TLPI exercise solutions

A Dafny model of the algorithms and protocols in this collection of exercise solutions, and proofs of what
they guarantee. `dafny verify dfyconfig.toml` checks everything. Each group of modules follows one program.

**The lock-coupled tree** (`TreeHeap`, `TreeEdits`, `ConcurrentTree`, `ConcurrentTreeTheorems`,
`ConcurrentTreeProgress`; sequentially `SequentialTree`; the keys `TreeKeys`). `ConcurrentTree` runs add, lookup
and delete in any number of threads over a shared heap of nodes. A thread is a program counter;
`ConcurrentTree.Do` is one step of one thread, up to its next lock, unlock or shared write. delete is there in its
not-found, leaf and one-child cases, at the root and elsewhere. The invariant is that a thread's node stays on the
search path of its key as long as it holds the node. `SequentialTree.TreeMap` has all of delete, with the mutexes
that it locks and unlocks. Its two-children case links the successor's parent to NULL, so whatever hangs to the
right of the successor disappears; the contract says exactly what, and `DeleteIsRemove` when nothing does. Below
the root that case also unlocks the node of the key twice, which is undefined for a default mutex; the model
counts such unlocks, and the contract of `Delete` says exactly when there is one (`UnlockTwice` has a tree). Keys
are real numbers; `TreeKeys` shows that strcmp orders strings as real numbers, and for which keys delete's strncmp
does the same.

**The allocator** (`HeapLayout`, `Allocator`). Memory is a sequence of 8-byte words, an address is the index of
a word, sizes are in bytes. A ghost map gives the chunks, a ghost sequence the order of the free list, a ghost
map the blocks the client holds; `Allocator.Heap.Valid` says that the chunks tile the heap, that both size
words of each are right, that the list is linked in both directions through the payloads of chunks the client
does not hold, and that a FREE bit is only set on list members. As in the program the converse fails: a merged
chunk is on the list with its FREE bit clear, so that a neighbour freed later is not coalesced with it, although
chapter_07/02.md promises that adjacent chunks are; `CoalescesIff` says exactly when they are. The word at the
program break reads as not free, sbrk is contiguous and aligned, and requests are of at least 9 bytes;
`LinksFitIff` shows why smaller ones do damage.

**The lock-step transfer** (`SystemVSem`, `Transfer`, `TransferTheorems`). Writer and reader as interleaved
step machines over semop, which performs an array of operations or none of them (POSIX.1-2017, semop()). The
same machines run over the binary semaphores and over the event flags, and the two are shown to be mirror
images of each other. read() returns any number of bytes that fits; the semaphore set is new and the reader
starts when the writer has initialised it.

**Named semaphores** (`SemaphoreHistory`, `PosixApi`, `PosixSem`). `PosixSem.SemSystem` holds the System V objects
and the sem_t structures of all processes. A call is one atomic step. `SemaphoreHistory` says what any sequence of
successful calls amounts to, judged by the calls alone; `PosixApi` where sem_open, sem_unlink and sem_timedwait
differ from POSIX.1-2017.

**Smaller programs.** `PathNormalizer`: the in-place path normaliser against the stack of components.
`LineReader`: the buffered line reader against the one that reads byte by byte. `Tail`: the block-wise backward
scan against the byte-wise one. `RacyCounter`: two threads incrementing without a lock; exactly which results
are possible. `KvStore`: the record array against a map with owners.

Several promises turn out not to hold everywhere. For each there is the exact condition, and in parentheses an
input that fails: `SequentialTree.DeleteIsRemove` (`LoseFour`), `Allocator.CoalescesIff` (`LeaveNeighbours`),
`PathNormalizer.NormalizesIff` (`NotNormalized`), `PosixApi.OpenVersusPosix` and `UnlinkVersusPosix`
(`NamesGoWrong`, `PosixSem.OpenTwice`), `PosixApi.TimedWaitVersusPosix` (`TimeoutsGoWrong`), `Tail.SuffixCount` and
`Tail.LastLinesIff` (`OneLineTooMany`), and `LineReader.AllByReadLineBuf` (`ShortByOne`, `TooLong`).

## Model

| member | source | states |
|---|---|---|
| ConcurrentTreeTheorems.Linearizable | chapter_30/threadsafe_tree.c:54-382 | in every run of add, lookup and delete (but for deleting a node with two children), by any number of threads, the calls in the order in which they take effect are a legal history of a map, results included, and the shared tree is an ordered tree holding what that history leaves |
| ConcurrentTreeTheorems.LookupsFindLastAdd | chapter_30/threadsafe_tree.c:54-382 | by the order of effects alone: a lookup finds a value if and only if the last call before it that adds or deletes its key has added that value, and nothing if there is none |
| ConcurrentTreeTheorems.EffectsOfThread | chapter_30/threadsafe_tree.c:54-382 | of each thread that order has the calls that have taken effect, in their order and with their results, and nothing else |
| ConcurrentTreeTheorems.EachCallTakesEffectOnce | chapter_30/threadsafe_tree.c:54-382 | in these runs every call takes effect at exactly one step, after it is called and before it returns, and returns the result it had there |
| ConcurrentTreeTheorems.LockDiscipline | chapter_30/threadsafe_tree.c:57-99 | a thread holds at most three mutexes, all different, on neighbouring nodes (except a node already unlinked and about to be destroyed); waiting for a child it holds the parent; outside calls it holds none |
| ConcurrentTreeTheorems.LocksPairUp | chapter_30/threadsafe_tree.c:57-99 | a step takes one mutex that is free, gives back one that the thread holds, or leaves the locks alone: nothing is unlocked twice or by somebody else |
| ConcurrentTreeTheorems.SomeThreadCanStep | chapter_30/threadsafe_tree.c:210-251 | no deadlock: from any unfinished call, following who waits for whom leads to a thread that can step, provided none stands at a node with two children that it is to delete |
| ConcurrentTreeTheorems.OnlyMutexesBlock | chapter_30/threadsafe_tree.c:210-251 | an idle thread can always call, and inside a call a thread can step unless it is about to lock a locked mutex, or stands at a node with two children that it is to delete |
| ConcurrentTreeTheorems.WaitsBelow | chapter_30/threadsafe_tree.c:213-227 | the owner of a mutex waited for waits, if at all, for a deeper one |
| ConcurrentTreeProgress.CallsAreShort | chapter_30/threadsafe_tree.c:54-382 | however the threads are interleaved, in a run with c calls a thread takes at most 6 c + 8 steps for each of its calls, waiting for a mutex not counted: nobody can keep a search descending for ever |
| ConcurrentTreeProgress.RunsAreShort | chapter_30/threadsafe_tree.c:54-382 | a run with c calls has at most 6 c + 9 transitions for each of them, for any number of threads |
| ConcurrentTreeProgress.AllReturn | chapter_30/threadsafe_tree.c:54-382 | a run that cannot go on without a further call has returned from all calls, unless a thread stands at a node with two children that it is to delete |
| ConcurrentTreeProgress.EffectsWithinCalls | chapter_30/threadsafe_tree.c:54-382 | no more effects than calls, over all threads |
| ConcurrentTreeProgress.DepthKept | chapter_30/threadsafe_tree.c:233-241 | an edit by one thread puts a node, and a search standing at it, at most one level higher |
| ConcurrentTreeProgress.OthersLeft | chapter_30/threadsafe_tree.c:67-96 | what a call has still to do does not grow by the steps of other threads |
| ConcurrentTreeProgress.OwnLeft | chapter_30/threadsafe_tree.c:54-382 | and falls with each of its own |
| ConcurrentTreeTheorems.StepKeepsInv | chapter_30/threadsafe_tree.c:54-382 | every modelled step keeps the invariant, and changes the map only by making the pending call take effect |
| ConcurrentTreeTheorems.CallKeepsInv | chapter_30/threadsafe_tree.c:54-57 | entering a call keeps the invariant and changes nothing |
| ConcurrentTreeTheorems.InitInv | chapter_30/threadsafe_tree.c:31-51 | a new tree with idle threads satisfies the invariant and is empty |
| ConcurrentTreeTheorems.Transition | chapter_30/threadsafe_tree.c:54-382 | a modelled transition changes the contents exactly by the effect it has, if any, and that effect returns what the map says |
| ConcurrentTreeTheorems.ContentsUnique | chapter_30/threadsafe_tree.c:54-382 | the contents are determined by the heap |
| ConcurrentTreeTheorems.EventIsProper | chapter_30/threadsafe_tree.c:54-382 | one transition extends the called, effected, returned sequence of a thread properly |
| ConcurrentTreeTheorems.Evolution | chapter_30/threadsafe_tree.c:54-382 | a transition moves the call of a thread from called to effected to returned, or leaves it where it is |
| ConcurrentTreeTheorems.InvSane | chapter_30/threadsafe_tree.c:69-96 | every node that a thread is about to read or to lock is allocated, and a key is there to compare with |
| ConcurrentTree.NotShared | chapter_30/threadsafe_tree.c:57-99 | mutual exclusion: no two threads hold one node |
| ConcurrentTree.OthersKeep | chapter_30/threadsafe_tree.c:67-96 | whatever a thread does to the nodes it holds, every other thread is still on the search path of its key |
| ConcurrentTree.Advance | chapter_30/threadsafe_tree.c:54-382 | a step whose own part is in order keeps the invariant of all threads |
| ConcurrentTree.StepStart | chapter_30/threadsafe_tree.c:107-107 | locking the root keeps the invariant |
| ConcurrentTree.StepAtRoot | chapter_30/threadsafe_tree.c:59-64 | on an empty tree the call takes effect at once: add fills the root, lookup finds nothing, delete does nothing |
| ConcurrentTree.StepFoundAdd | chapter_30/threadsafe_tree.c:70-76 | writing the value of an existing key is the effect of add |
| ConcurrentTree.StepFoundLookup | chapter_30/threadsafe_tree.c:369-376 | finding the key returns what the map has for it |
| ConcurrentTree.StepFoundRoot | chapter_30/threadsafe_tree.c:113-125 | delete of a root without children empties the map; with one child it goes on to lock the child |
| ConcurrentTree.StepFoundDelete | chapter_30/threadsafe_tree.c:233-241 | linking past a node with at most one child removes its key and nothing else, with other threads anywhere else in the tree |
| ConcurrentTree.StepInsert | chapter_30/threadsafe_tree.c:79-89 | hanging a new leaf below the last node of the search is the effect of add |
| ConcurrentTree.StepMissing | chapter_30/threadsafe_tree.c:324-331 | a search that ends at NULL shows that the key is not in the map, which is the effect of lookup and delete |
| ConcurrentTree.StepLockNext | chapter_30/threadsafe_tree.c:91-91 | locking the child keeps the invariant |
| ConcurrentTree.StepShift | chapter_30/threadsafe_tree.c:92-95 | unlocking the parent and moving down keeps the invariant |
| ConcurrentTree.StepRootLock | chapter_30/threadsafe_tree.c:183-184 | locking the only child of the root keeps the invariant |
| ConcurrentTree.StepRootCopy | chapter_30/threadsafe_tree.c:187-191 | copying the only child into the root removes the key of the root and nothing else |
| ConcurrentTree.StepFree | chapter_30/threadsafe_tree.c:21-29 | destroying an unlinked node is invisible |
| ConcurrentTree.StepRelease | chapter_30/threadsafe_tree.c:293-331 | the final unlocks and the return change nothing |
| TreeHeap.FindIsContents | chapter_30/threadsafe_tree.c:70-96 | in an ordered tree a search finds exactly what the tree contains |
| TreeHeap.PathDecides | chapter_30/threadsafe_tree.c:70-96 | once a search has reached a node, only the subtree there matters to it |
| TreeHeap.PathExtends | chapter_30/threadsafe_tree.c:78-96 | following the child pointer extends the search path |
| TreeHeap.ReplaceFind | chapter_30/threadsafe_tree.c:84-84 | after a subtree is replaced, searches through it see the new one, all others see what they saw |
| TreeHeap.ReplacePath | chapter_30/threadsafe_tree.c:67-96 | a search standing outside what was removed keeps its place |
| TreeHeap.RepresentsUnique | chapter_30/threadsafe_tree.c:44-51 | a heap represents at most one tree |
| TreeEdits.Edit | chapter_30/threadsafe_tree.c:84-84 | an edit at one node keeps the order of the tree, changes one key of the map, and displaces only searches standing at removed nodes |
| TreeEdits.SetValue | chapter_30/threadsafe_tree.c:70-71 | overwriting a value changes one entry of the map |
| TreeEdits.AddChild | chapter_30/threadsafe_tree.c:78-84 | the new leaf adds one entry to the map and displaces no search |
| TreeEdits.Unlink | chapter_30/threadsafe_tree.c:233-241 | linking past a node removes one entry and displaces only searches standing at that node |
| TreeEdits.CopyUp | chapter_30/threadsafe_tree.c:183-191 | copying the only child of the root up removes the entry of the root |
| TreeEdits.FoundHere | chapter_30/threadsafe_tree.c:369-370 | a search at a node with its key has found the value of the map |
| TreeEdits.MissingHere | chapter_30/threadsafe_tree.c:358-366 | a search that cannot go on has shown that the key is not in the map |
| TreeEdits.FreeUnreachable | chapter_30/threadsafe_tree.c:310-317 | freeing a node outside the tree does not change the tree |
| SequentialTree.TreeMap.constructor | chapter_30/threadsafe_tree.c:31-51 | a new tree is the empty map, with no mutex locked |
| SequentialTree.TreeMap.Add | chapter_30/threadsafe_tree.c:54-100 | add is insertion into the map, keeps the tree ordered, gives the tree the shape of an insertion at a leaf, and unlocks once each mutex it locks |
| SequentialTree.TreeMap.Lookup | chapter_30/threadsafe_tree.c:336-382 | lookup returns what the map has for the key, and FALSE exactly if it has nothing; it unlocks once each mutex it locks |
| SequentialTree.TreeMap.Delete | chapter_30/threadsafe_tree.c:103-333 | delete removes its key together with the lost keys, and nothing else, and keeps the tree ordered; it never locks a mutex twice, leaves none locked, and unlocks one too often if and only if it deletes a node with two children other than the root; it frees one node, unless the key is not there or is that of a root without children |
| SequentialTree.TreeMap.DeleteRoot | chapter_30/threadsafe_tree.c:113-198 | the same for the root: no children, one child copied up, two children |
| SequentialTree.TreeMap.DeleteRootInner | chapter_30/threadsafe_tree.c:127-179 | the same for a root with two children, successor directly below it or deeper |
| SequentialTree.TreeMap.DeleteInner | chapter_30/threadsafe_tree.c:254-298 | the same for another node with two children; its mutex is unlocked twice on every path |
| SequentialTree.TreeMap.RemovesSuccessor | chapter_30/threadsafe_tree.c:272-286 | the stores of that case, and the unlocking of the destroyed node |
| SequentialTree.TreeMap.InnerSuccessor | chapter_30/threadsafe_tree.c:257-269 | the way down to the successor, with the parent and two neighbouring nodes locked |
| SequentialTree.TreeMap.RootSuccessor | chapter_30/threadsafe_tree.c:131-147 | the same from the root, whose mutex stays locked |
| SequentialTree.TreeMap.FindBelow | chapter_30/threadsafe_tree.c:203-227 | the search of delete ends at the node of the key with this and its parent locked, or at NULL with the last two nodes locked |
| SequentialTree.TreeMap.DeleteSimple | chapter_30/threadsafe_tree.c:233-322 | a node with at most one child goes, and both mutexes are given back |
| SequentialTree.DeleteTwoChildren | chapter_30/threadsafe_tree.c:254-298 | those stores give an ordered tree without the deleted key and without the keys that hang to the right of the successor |
| SequentialTree.DeleteIsRemove | chapter_30/threadsafe_tree.c:159-167 | delete is removal from a map if and only if the successor of a node with two children has no right child |
| SequentialTree.LostKeysAre | chapter_30/threadsafe_tree.c:254-298 | for a node with two children, the lost keys are those to the right of the node with the next larger key |
| SequentialTree.NoneLost | chapter_30/threadsafe_tree.c:233-241 | in all other cases there are none |
| SequentialTree.InnerTwoChildrenIff | chapter_30/threadsafe_tree.c:254-298 | a mutex is unlocked too often exactly if the node of the key is not the root and has two children |
| SequentialTree.LosesKeysIff | chapter_30/threadsafe_tree.c:280-286 | some other key is lost if and only if the successor has a right child |
| SequentialTree.DeleteLosesAKey | chapter_30/threadsafe_tree.c:159-167 | the tree that this program builds, and the key that its delete loses |
| SequentialTree.LoseFour | chapter_30/threadsafe_tree.c:159-167 | a program that adds 2, 1, 3 and 4, deletes 2, and then does not find 4 |
| SequentialTree.UnlockTwice | chapter_30/threadsafe_tree.c:289-293 | after adding 5, 2, 1 and 3, deleting 2 unlocks a mutex that is not locked |
| SequentialTree.InsertedHere | chapter_30/threadsafe_tree.c:78-84 | inserting below the node where the search ends is inserting into the tree |
| TreeKeys.StrCmpIsRealOrder | chapter_30/threadsafe_tree.c:70-78 | strcmp orders strings as real numbers are ordered, and gives 0 for equal strings only |
| TreeKeys.StrNCmpAgrees | chapter_30/threadsafe_tree.c:113-219 | strncmp agrees with strcmp except on different keys that share their first n bytes; so it does for keys shorter than n |
| Allocator.Heap.Malloc | chapter_07/mymalloc.c:153-174 | first fit in numbers: the first list chunk that holds the size rounded up to a multiple of 8; if 48 bytes or more are left over it is cut to that size and the rest, less 16 bytes, goes marked free to the front of the list, otherwise it is handed out whole; without such a chunk a new one of that size at the break, NULL only if sbrk fails; no other header and no live payload changes; the bytes on the list fall by exactly the chunk handed out; no two list chunks become neighbours |
| Allocator.Heap.Serve | chapter_07/mymalloc.c:153-174 | the program of mymalloc, in terms of the functions for its parts |
| Allocator.HandedIs | chapter_07/mymalloc.c:9-163 | which chunks and list those functions stand for, in numbers |
| Allocator.HeadersAre | chapter_07/mymalloc.c:153-187 | all headers but one are the same, word by word |
| Allocator.PayloadsAre | chapter_07/mymalloc.c:153-187 | all bytes that the client holds are the same |
| Allocator.Heap.Free | chapter_07/mymalloc.c:176-187 | the freed chunk absorbs, or is absorbed by, exactly the neighbours whose FREE bit is set; the list is the old one with it in front and without the absorbed chunks; the resulting chunk carries the FREE bit if and only if nothing was merged; the bytes on the list rise by exactly the freed chunk; all live payloads are kept; if no two list chunks were neighbours, none are afterwards if and only if the list neighbours of the freed chunk carried the bit |
| Allocator.FreedIs | chapter_07/mymalloc.c:130-187 | in numbers: the freed chunk becomes one with the chunk behind it and the one in front of it, each if its header carries the FREE bit; the list is the old one with the chunk in front, less the absorbed ones |
| Allocator.FreedKeeps | chapter_07/mymalloc.c:130-187 | in numbers: the header of the resulting chunk is its size, with the FREE bit if and only if nothing was merged; all other headers and all live payloads stay |
| Allocator.Asserts | chapter_07/mymalloc.c:196-233 | what main() asserts: 104 bytes for a request of 100, a freed block handed out again, three neighbours coalesced, and what a split leaves |
| Allocator.Heap.Coalesce | chapter_07/mymalloc.c:130-151 | two-sided merging acts only on list members, keeps the bytes on the list, and clears the FREE bit of a merged chunk |
| Allocator.Heap.AbsorbNext | chapter_07/mymalloc.c:133-139 | the chunk behind is absorbed if and only if it is there and flagged; at the break nothing is |
| Allocator.Heap.AbsorbIntoPrev | chapter_07/mymalloc.c:141-150 | the chunk in front absorbs if and only if it is flagged |
| Allocator.Heap.MergeNext | chapter_07/mymalloc.c:135-138 | a merge of neighbours keeps the tiling, the list without one member, and every live payload |
| Allocator.Heap.GetPrevChunk | chapter_07/mymalloc.c:117-128 | the footer in front leads to the chunk that ends here; NULL only at heap_base |
| Allocator.Heap.FindFreeChunk | chapter_07/mymalloc.c:44-55 | terminates, with the first list member that is large enough |
| Allocator.Heap.RemoveFromFreeList | chapter_07/mymalloc.c:75-86 | the stores of unlinking a list member |
| Allocator.Heap.AddToFreeList | chapter_07/mymalloc.c:88-97 | the stores of linking a chunk in front |
| Allocator.Heap.Detach | chapter_07/mymalloc.c:75-86 | removing a member leaves the list of the others, in order and linked in both directions, and touches no payload off the list |
| Allocator.Heap.SetChunkSizeHeaders | chapter_07/mymalloc.c:34-42 | both size words are written, and the FREE bit with them |
| Allocator.Heap.SplitChunk | chapter_07/mymalloc.c:99-115 | splits exactly if the remainder makes a minimal free chunk |
| Allocator.Heap.TakeFromList | chapter_07/mymalloc.c:159-163 | a list chunk handed out is off the list, unflagged and large enough; its remainder is on the list |
| Allocator.Heap.TakeFromBreak | chapter_07/mymalloc.c:166-173 | a new chunk at the old break; nothing else changes |
| Allocator.Heap.ExpandHeap | chapter_07/mymalloc.c:57-73 | heap_base is set once; the break moves by the size plus overhead, or not at all |
| Allocator.Heap.ClientWrite | chapter_07/mymalloc.c:163-163 | writing anywhere within a live block keeps the heap consistent |
| Allocator.Heap.constructor | chapter_07/mymalloc.c:20-22 | the heap before the first call |
| Allocator.LiveBlocks | chapter_07/mymalloc.c:153-187 | live blocks lie in the heap, are as large as requested, and overlap neither each other nor size words nor anything on the list |
| Allocator.LinksFitIff | chapter_07/mymalloc.c:12-16 | putting a chunk in front of any list leaves its footer intact if and only if its payload holds two words, that is for requests of at least 9 bytes (or its one word is overwritten with the very size) |
| Allocator.CoalescesIff | chapter_07/02.md:29 | freeing coalesces all neighbours on the list, as promised, if and only if each of them carries the FREE bit |
| Allocator.TakenCoalesced | chapter_07/mymalloc.c:159-163 | handing a chunk out makes no two list chunks neighbours |
| Allocator.LeaveNeighbours | chapter_07/02.md:29 | four blocks of 16 bytes, three of them freed in order, leave two neighbours on the list |
| Allocator.RemoveOk | chapter_07/mymalloc.c:75-86 | unlinking keeps the heap consistent |
| Allocator.AddOk | chapter_07/mymalloc.c:88-97 | linking in front keeps the heap consistent |
| Allocator.SplitAll | chapter_07/mymalloc.c:99-115 | a split keeps the heap consistent |
| Allocator.MergeNextOk | chapter_07/mymalloc.c:133-139 | a merge keeps the heap consistent, the client's chunks included |
| Allocator.TakenEntries | chapter_07/mymalloc.c:99-115 | a split keeps all other chunks and neither gains nor loses bytes |
| Allocator.FlaggedInList | chapter_07/mymalloc.c:134-142 | a chunk with the FREE bit is on the list |
| Allocator.FirstFit | chapter_07/mymalloc.c:44-55 | everything before the position found is too small, and what is there is large enough |
| HeapLayout.UnlinkList | chapter_07/mymalloc.c:75-86 | after unlinking, prev and next are mutually inverse along the remaining list |
| HeapLayout.LinkList | chapter_07/mymalloc.c:88-97 | after linking in front, prev and next are mutually inverse along the longer list |
| HeapLayout.LinksFrame | chapter_07/mymalloc.c:75-97 | writing links changes no size word and no payload off the list |
| HeapLayout.MergeTiles | chapter_07/mymalloc.c:135-138 | merged neighbours tile the heap |
| HeapLayout.SplitTiles | chapter_07/mymalloc.c:106-113 | split chunks tile the heap |
| HeapLayout.GrowTiles | chapter_07/mymalloc.c:65-71 | a chunk at the break tiles the larger heap |
| HeapLayout.ChunkOf | chapter_07/mymalloc.c:57-73 | every word of the heap belongs to exactly one chunk |
| HeapLayout.WalkIsWhole | chapter_07/mymalloc.c:57-73 | stepping from heap_base by size plus overhead meets every chunk once, and the sum is the break minus heap_base |
| Allocator.HeapIsTiled | chapter_07/mymalloc.c:34-42 | in memory each chunk ends where the next one starts, from heap_base to the break; header and footer hold its size, the sizes and overheads add up to the heap, and a FREE bit is only set on list members |
| Allocator.ListIsLinked | chapter_07/mymalloc.c:75-97 | in memory the free list runs through chunks that the client does not hold, forwards by next and backwards by prev, with no chunk twice |
| HeapLayout.FindPrev | chapter_07/mymalloc.c:117-128 | every chunk but the first has one in front of it |
| SystemVSem.BinarySemaphores | chapter_48/binary_sems.c:46-72 | reserveSem takes one or blocks at 0; releaseSem adds one |
| SystemVSem.EventFlags | chapter_48/vms_flags.c:16-101 | waiting passes exactly if the flag is set, and clears it in the same step; setting a set flag does nothing; the state test is right |
| SystemVSem.FlagsAreSemaphores | chapter_48/vms_flags.c:16-77 | with flags in {0, 1}, wait and set are reserve and release of the complementary value |
| SystemVSem.SemopAllOrNothing | chapter_48/vms_flags.c:56-77 | an array of operations is performed exactly if each is possible after those before it, and then adds up; otherwise the first impossible one decides between blocking and EAGAIN, and nothing changes |
| Transfer.InitInv | chapter_48/svshm_xfr_writer.c:46-53 | the initialised set gives the writer the first turn |
| Transfer.WriterKeepsInv | chapter_48/svshm_xfr_writer.c:67-96 | every step of the writer keeps turns, phases, data and counts in agreement |
| Transfer.ReaderKeepsInv | chapter_48/svshm_xfr_reader.c:44-65 | so does every step of the reader |
| TransferTheorems.RunKeepsInv | chapter_48/svshm_xfr_writer.c:67-96 | the invariant holds in every state of every run |
| TransferTheorems.EndToEnd | chapter_48/svshm_xfr_reader.c:44-57 | in every interleaving and for every way read() divides the input, the output is a prefix of the input, and all of it once the reader has finished; at the end both sides have equal byte and transfer counts |
| TransferTheorems.Alternation | chapter_48/svshm_xfr_writer.c:67-78 | until the set is removed the semaphores and the turns held add up to one, so it is always exactly one program's turn; in the reader's turn nothing changes cnt or buf |
| TransferTheorems.SafeShutdown | chapter_48/svshm_xfr_writer.c:85-96 | when the writer removes the set the reader has finished, so it makes no call on a removed set |
| TransferTheorems.OnlySemaphoresBlock | chapter_48/svshm_xfr_writer.c:67-96 | a program waits only for its semaphore, and read() may return any number of bytes that fits |
| TransferTheorems.TransfersAreReads | chapter_48/svshm_xfr_writer.c:67-82 | both report as many transfers as there were calls of read() that returned bytes, and the bytes of the input |
| TransferTheorems.CanStep | chapter_48/svshm_xfr_writer.c:67-96 | no unfinished state is stuck |
| TransferTheorems.StepsDecrease | chapter_48/svshm_xfr_writer.c:67-96 | every step decreases a measure |
| TransferTheorems.Terminates | chapter_48/svshm_xfr_writer.c:67-96 | every run is finite, of at most 12 steps a byte and 13 more, and a run that cannot be continued has transferred everything |
| TransferTheorems.StepMirrors | chapter_48/svshm_xfr_writer_mod.c:68-90 | a transition of the flag protocol is possible if and only if its mirror image is one of the semaphore protocol |
| TransferTheorems.WriterMirrors | chapter_48/svshm_xfr_writer_mod.c:68-90 | the same for the writer, with the same resulting state |
| TransferTheorems.ReaderMirrors | chapter_48/svshm_xfr_reader_mod.c:45-66 | the same for the reader |
| TransferTheorems.FlagRunState | chapter_48/vms_flags.c:16-34 | in every run the flags stay in {0, 1}, and setEventFlag only meets clear flags |
| TransferTheorems.FlagRunsAreSemRuns | chapter_48/svshm_xfr_writer_mod.c:51-54 | the runs of the two protocols are mirror images of each other |
| TransferTheorems.FlagsEndToEnd | chapter_48/svshm_xfr_reader_mod.c:45-66 | the flag protocol transfers everything, with equal counts, in finitely many steps |
| TransferTheorems.FlagsTerminate | chapter_48/svshm_xfr_writer_mod.c:68-98 | a run of the flag protocol that cannot be continued has transferred everything |
| TransferTheorems.FlagsCanStep | chapter_48/svshm_xfr_writer_mod.c:68-98 | no unfinished state of the flag protocol is stuck |
| PosixSem.ObjectsFollowHistory | chapter_53/posix_sem.c:446-535 | over any sequence of calls the System V objects of a name are there exactly as long as it is linked or has an open handle; the reference count is the number of open handles; every open handle finds its objects |
| PosixApi.OpenVersusPosix | chapter_53/posix_sem.c:140-254 | sem_open, in what it returns and with which errno, departs from POSIX exactly on creating a name that is unlinked but still open, on creating a new name with a value above the System V limit, and on opening a name that the process has open already, where POSIX returns the same address and this a new one |
| PosixApi.UnlinkVersusPosix | chapter_53/posix_sem.c:503-523 | sem_unlink differs from POSIX exactly on a name that is unlinked already but still open |
| PosixApi.NamesGoWrong | chapter_53/posix_sem.c:140-254 | a history after which POSIX would create the semaphore and this sem_open fails with EEXIST or ENOENT, and sem_unlink succeeds a second time; a value that gives ERANGE; a name opened again |
| PosixSem.OpenTwice | chapter_53/posix_sem.c:242-254 | a process that opens a name twice gets two addresses, which POSIX does not allow |
| PosixApi.TimedWaitVersusPosix | chapter_53/posix_sem.c:307-424 | over the whole call, blocking wait included, the answer of sem_timedwait is one that POSIX allows at that time except exactly if it reports a timeout on a semaphore that can be locked, at the call or after an interruption, or after an interruption before the deadline, or if it acquires the semaphore at the end of a wait that has gone on past the deadline |
| PosixApi.TimedCallIs | chapter_53/posix_sem.c:307-424 | the whole call: EINVAL for a deadline out of form; else success if and only if it comes before the deadline and the value is positive, or the wait ends with the semaphore, or is interrupted before the deadline with a positive value; else ETIMEDOUT |
| PosixApi.TimeoutsGoWrong | chapter_53/posix_sem.c:328-419 | one input for each of these four kinds |
| PosixApi.AlarmCoversDeadline | chapter_53/posix_sem.c:350-380 | the alarm is never 0, never before the deadline, and less than a second after it |
| PosixApi.PassedIsNanos | chapter_53/posix_sem.c:329-331 | the comparison of seconds and nanoseconds is the comparison of the times |
| PosixSem.SemSystem.SemOpen | chapter_53/posix_sem.c:89-255 | all outcomes, spelled out: EINVAL without a leading slash or for a value above 2^31 - 1, ENAMETOOLONG from 255 characters on, EEXIST, ENOENT, ERANGE; on success a new handle, on a new semaphore with the value or on the one that is there; on failure no change |
| PosixSem.SemSystem.CreateObjects | chapter_53/posix_sem.c:148-205 | both objects or neither |
| PosixSem.SemSystem.OpenNewName | chapter_53/posix_sem.c:140-206 | a new name gets its objects with one handle |
| PosixSem.SemSystem.OpenOldName | chapter_53/posix_sem.c:207-240 | an existing one gets another handle, or ENOENT if it is unlinked |
| PosixSem.SemSystem.Register | chapter_53/posix_sem.c:242-254 | the handle is new |
| PosixSem.SemSystem.SemClose | chapter_53/posix_sem.c:446-478 | the handle goes, and the semaphore with its objects exactly if the name is unlinked and it was the last handle |
| PosixSem.SemSystem.SemUnlink | chapter_53/posix_sem.c:481-535 | the same checks of the name; ENOENT exactly if there is no semaphore; otherwise it is marked, or goes with its objects exactly if no handle is open |
| PosixSem.SemSystem.SemWait | chapter_53/posix_sem.c:258-304 | takes one if there is one, otherwise blocks, or EAGAIN for sem_trywait; an open handle always has its objects |
| PosixSem.SemSystem.SemPost | chapter_53/posix_sem.c:427-443 | adds one, up to the System V limit |
| PosixSem.SemSystem.SemTimedWait | chapter_53/posix_sem.c:307-380 | the outcomes up to the blocking wait; the alarm is set for the first full second at or after the deadline |
| PosixSem.SemSystem.SemTimedWaitInterrupted | chapter_53/posix_sem.c:399-420 | after an interruption: success exactly if the deadline has not come and the value is positive, and then it is one less; otherwise ETIMEDOUT, even before the deadline |
| PosixSem.SemSystem.SemGetValue | chapter_53/posix_sem.c:538-553 | the value of the semaphore |
| PosixSem.SemSystem.Operate | chapter_53/posix_sem.c:269-274 | one semop on one semaphore changes no other |
| PosixSem.SemSystem.constructor | chapter_53/posix_sem.c:89-91 | nothing is there before the first call |
| PosixSem.StoredFacts | chapter_53/posix_sem.c:216-235 | what is stored for a name agrees with the table: value, unlinked mark and reference count |
| PosixSem.CloseStored | chapter_53/posix_sem.c:457-471 | closing keeps stored objects and handles in agreement |
| PosixSem.UnlinkStored | chapter_53/posix_sem.c:512-532 | so does unlinking |
| SemaphoreHistory.Lifecycle | chapter_53/posix_sem.c:446-535 | a semaphore is there if and only if its name was opened since it was last unlinked, or some handle is open; it is marked unlinked exactly if not linked; its handles are those opened and not closed |
| SemaphoreHistory.EffectIs | chapter_53/posix_sem.c:207-535 | what opening, closing, unlinking, waiting and posting each do to value, mark and handles of their semaphore |
| SemaphoreHistory.OneName | chapter_53/posix_sem.c:242-254 | no handle is open on two names |
| SemaphoreHistory.ValueConserved | chapter_53/posix_sem.c:258-443 | while a semaphore is there, its value is what it was plus the posts minus the waits, whatever else is called |
| PathNormalizer.NormalizePath | chapter_18/myrealpath.c:17-57 | in place, with strtok_r, strrchr and strcpy on one buffer, the loop computes the stated result, and never writes past the end of the path |
| PathNormalizer.NormalizesIff | chapter_18/myrealpath.c:17-57 | an absolute path is normalised if and only if it has no components, or has one other than "." and, should the first such be "..", as many ".." at the root as use up its extra leading slashes |
| PathNormalizer.ResultIs | chapter_18/myrealpath.c:17-57 | what comes out for every absolute path: the canonical path, "." after the leading slashes, or surplus slashes in front of the canonical path |
| PathNormalizer.CanonicalIs | chapter_18/myrealpath.c:14-18 | the canonical path is absolute, has the resolved components and no superfluous slash |
| PathNormalizer.ResolveIs | chapter_18/myrealpath.c:32-48 | a further "." does nothing, a further ".." drops the last component or nothing, a further name is a component more |
| PathNormalizer.SplitIs | chapter_18/myrealpath.c:24-51 | the components of a path with a further slash, or a further component, at its end |
| PathNormalizer.OneSlashHandled | chapter_18/myrealpath.c:17-57 | with one leading slash that is every path but those made of "." only |
| PathNormalizer.NotNormalized | chapter_18/myrealpath.c:33-57 | "/." stays "/.", and "//../a" becomes "//a" |
| PathNormalizer.Idempotent | chapter_18/myrealpath.c:17-57 | a normalised path starts with a slash, has the remaining names as its components, and normalising it again changes nothing |
| PathNormalizer.TakePart | chapter_18/myrealpath.c:33-48 | one component: the text under construction follows the stack, and the write position does not pass the component |
| PathNormalizer.Append | chapter_18/myrealpath.c:43-47 | "/" and the name go to the end of the text, nothing after the component changes |
| PathNormalizer.DropLast | chapter_18/myrealpath.c:37-41 | cutting at the last slash drops the last component, or nothing |
| PathNormalizer.StrTokR | chapter_18/myrealpath.c:24-51 | the next component, cut off with a NUL, and the rest unread |
| PathNormalizer.StrRChr | chapter_18/myrealpath.c:37-37 | the last slash, or NULL |
| PathNormalizer.StrCpy | chapter_18/myrealpath.c:45-45 | copying towards the front of the same buffer |
| PathNormalizer.Advance | chapter_18/myrealpath.c:32-52 | one round keeps text, component in hand and unread input apart |
| PathNormalizer.WorkDone | chapter_18/myrealpath.c:32-56 | the text ends up with the right components after a known number of extra slashes |
| PathNormalizer.SplitRender | chapter_18/myrealpath.c:43-46 | splitting the rendering of names gives back the names |
| PathNormalizer.TakesResolve | chapter_18/myrealpath.c:33-48 | after the first write the stack follows the resolution of "." and ".." |
| LineReader.AllByReadLineBuf | chapter_59/read_line_mod.c:88-137 | for n > 1, however read() divides the input, successive calls return what readLine returns, line by line with their lengths, if and only if every line has at most n - 1 bytes, and n - 2 if it is unterminated; then they are the lines of the input, and together the input. For n = 1 nothing is returned or consumed, for n = 0 the output is overrun exactly if there is input |
| LineReader.AllByReadLine | chapter_59/read_line_mod.c:31-75 | successive calls of the simple reader return the first n - 1 bytes of each line; for n = 1 the first call discards a line and returns 0, for n = 0 it fails |
| LineReader.RlBuf.ReadLineBuf | chapter_59/read_line_mod.c:88-137 | for a line of up to n - 1 bytes: the line, the rest kept for later, and its length, one short exactly if it is unterminated and fills the buffer; for a longer line: if the block that fills the output has the newline, the n bytes do not suffice for what the program copies, and otherwise n - 2 with n - 1 bytes of the line, and that block is gone |
| LineReader.RlBuf.ReturnedIs | chapter_59/read_line_mod.c:112-122 | a line returned is in the output, followed by NUL, and the input goes on behind it |
| LineReader.RlBuf.TruncatedIs | chapter_59/read_line_mod.c:124-136 | of a line cut, n - 1 bytes and NUL are in the output, and the input goes on behind the block |
| LineReader.FirstLineEnds | chapter_59/read_line_mod.c:23-29 | the first line ends with the first newline, or with the text |
| LineReader.ReadLine | chapter_59/read_line_mod.c:31-75 | the first n - 1 bytes of the line, the excess discarded, exactly one line consumed; EINVAL for n = 0 or no buffer |
| LineReader.RlBuf.Refill | chapter_59/read_line_mod.c:97-110 | a refill neither loses nor reorders bytes |
| LineReader.RlBuf.FindNewline | chapter_59/read_line_mod.c:112-113 | the first newline in the buffered bytes |
| LineReader.RlBuf.CopyLine | chapter_59/read_line_mod.c:114-122 | a line for which there is room is copied to its newline, and what follows is kept |
| LineReader.RlBuf.CopyBlock | chapter_59/read_line_mod.c:124-132 | without a newline, as much of the block is copied as there is room for, and all of it is dropped |
| LineReader.RlBuf.EndUnterminated | chapter_59/read_line_mod.c:101-105 | the line ends where the input ends |
| LineReader.RlBuf.EndFull | chapter_59/read_line_mod.c:135-136 | a full output holds the whole unterminated line, or the beginning of a longer one whose newline is still to be read |
| LineReader.ShortByOne | chapter_59/read_line_mod.c:135-136 | for "ab" at the end of the input and n = 3 the call returns 1 |
| LineReader.TooLong | chapter_59/read_line_mod.c:112-132 | for "abcd" with its newline and n = 3, the program copies past the output if the line comes in one block, and cuts it if the first two bytes come first |
| LineReader.NextLine | chapter_59/read_line_mod.c:23-29 | the first line and the lines of the rest are the lines of a text |
| LineReader.RlBuf.constructor | chapter_59/read_line_mod.c:77-85 | a new buffer is empty |
| LineReader.Descriptor.Read | chapter_59/read_line_mod.c:99-99 | any number of bytes from 1 up, 0 only at the end |
| LineReader.LinesConcat | chapter_59/read_line_mod.c:23-29 | the lines of a text together are the text |
| LineReader.LineSeen | chapter_59/read_line_mod.c:47-71 | bytes seen without a newline determine the line at the front |
| Tail.NaiveTail | chapter_13/naive_tail.c:25-38 | the byte-wise scan finds the start offset of the last n lines, characterised by the newlines after it |
| Tail.BlockTail | chapter_13/tail.c:29-53 | so does the block-wise scan, for every block size |
| Tail.CountIs | chapter_13/tail.c:40-42 | lines are counted by the newline characters |
| Tail.ScanBlock | chapter_13/tail.c:39-48 | one block from its end: all its newlines counted, or stopped at the (n + 1)-th |
| Tail.SameStart | chapter_13/tail.c:29-53 | there is one such offset, so both programs print the same bytes |
| Tail.SuffixCount | chapter_13/tail.c:51-53 | the bytes printed hold min(n, total) newlines, except if and only if there are n + 1 and the file starts with one; then all is printed |
| Tail.LastLinesIff | chapter_13/naive_tail.c:36-38 | exactly when the bytes printed are the last n lines, a last line without newline counting as one |
| Tail.OneLineTooMany | chapter_13/tail.c:51-53 | two small files for which more than the last line is printed |
| RacyCounter.FinalValues | chapter_30/thread_incr.c:24-65 | over all schedules the possible final values are exactly those from 2 to twice the number of rounds (from 1 if there is one round) |
| RacyCounter.RunKeepsInv | chapter_30/thread_incr.c:32-36 | the counter stays between the stores of the last thread to store, up to 2, and the total of stores |
| RacyCounter.ReachHigh | chapter_30/thread_incr.c:32-36 | a schedule for every value from the number of rounds up |
| RacyCounter.ReachLow | chapter_30/thread_incr.c:32-36 | a schedule for every value from 2 to the number of rounds |
| RacyCounter.InStep | chapter_30/thread_incr.c:32-36 | rounds in step lose one update each |
| RacyCounter.Alone | chapter_30/thread_incr.c:32-36 | rounds alone lose none |
| KvStore.Store.Set | chapter_59/kv_store.c:68-109 | OK maps the key to the new value and the client, anything else changes nothing; PERM exactly for a key whose owner has not the same IP in a supported family, FULL exactly for a new key with 1024 there, NOMEM exactly if neither and malloc() fails |
| KvStore.Store.Delete | chapter_59/kv_store.c:130-159 | OK removes the key, anything else changes nothing; NOTFOUND exactly without the key, PERM as for set; the last record is moved into the gap |
| KvStore.LastWriteCounts | chapter_59/kv_store.c:98-104 | over any requests, a key has the value and owner of the last set of it that got OK, if no delete of it did since |
| KvStore.ReadBack | chapter_59/kv_store.c:101-127 | two sets and a get by one client return the second value |
| KvStore.Store.Get | chapter_59/kv_store.c:112-127 | the record of the key, or NOTFOUND |
| KvStore.Store.GetIdx | chapter_59/kv_store.c:38-48 | the index of the key, -1 exactly if it is not there |
| KvStore.Store.Cleanup | chapter_59/kv_store.c:57-65 | empties the map |
| KvStore.Store.constructor | chapter_59/kv_store.c:51-54 | the store starts empty |
| KvStore.OwnerFixed | chapter_59/kv_store.c:74-80 | over any requests, from its creation to its deletion a key has one owner IP |
| KvStore.OthersCannot | chapter_59/kv_store.c:17-35 | without a request from the owner's IP a record is neither changed nor removed; never, for an owner of an unsupported family |
| KvStore.NeverTooMany | chapter_59/kv_store.c:81-84 | over any requests there are at most 1024 keys |
| KvStore.SwapDelete | chapter_59/kv_store.c:147-153 | moving the last record into the gap removes exactly one key |
| KvStore.Overwrite | chapter_59/kv_store.c:101-104 | putting a record in the place of another exchanges their entries |
| KvStore.Append | chapter_59/kv_store.c:98-100 | a record at the end adds one entry |
| KvStore.Lookup | chapter_59/kv_store.c:41-46 | a key is in the map if and only if some record has it |

## Left out

- main functions, argument parsing, printing, debug output, process exit, and interrupted system calls (EINTR) except in sem_timedwait.
- ConcurrentTreeTheorems.Linearizable: deleting a node with two children has no step in the concurrent model, because it unlocks the node before rewriting it, unlocks it again afterwards, and detaches the successor's right subtree; a thread that gets there is not followed any further. With it the calls would not be those of a map even in one thread (SequentialTree.LoseFour). The sequential model has it, with its exact effects.
- ConcurrentTreeTheorems.EachCallTakesEffectOnce: the same.
- ConcurrentTreeTheorems.SomeThreadCanStep: the same; it requires that no thread has got there.
- ConcurrentTreeProgress.AllReturn: the same.
- ConcurrentTreeTheorems.StepKeepsInv: the same.
- ConcurrentTreeTheorems.Transition: the same.
- ConcurrentTree: several stores under one lock, and unlocking, destroying and freeing a node that is already unlinked, are one step each.
- ConcurrentTree.Do: the nodes are values in a map from references rather than Dafny objects, because the states of a run are compared; freed references leave the map and may be allocated again.
- SequentialTree.TreeMap: the strings of the keys (strdup, free) are left out; nodes are in a map from references. What a second unlock of a mutex does is undefined; here it does nothing but count.
- Allocator.Heap.Malloc: requests below 9 bytes and sizes that overflow size_t are excluded; for the former see Allocator.LinksFitIff.
- Allocator.Heap.Free: freeing a pointer twice, or one that mymalloc did not return, is excluded; the program does not detect it.
- Allocator.Heap.ExpandHeap: sbrk is contiguous and 8-aligned, and nobody else moves the break.
- Transfer.WriterKeepsInv: errors of read(), write() and semop(), partial writes, SEM_UNDO and left-over semaphore sets are not modelled.
- PosixSem.SemSystem.SemOpen: each call is atomic; failing malloc, strdup, shmget and shmat, permissions, NULL names and a key that two names share are not modelled.
- PosixSem.SemSystem.SemTimedWait: the clock readings are parameters; installing the signal handler, the signal mask and the alarm itself are not modelled. When the blocking semop() of sem_timedwait succeeds, it is as SemWait without nowait.
- PosixSem.SemSystem.SemClose: using a handle after closing it is excluded; handles inherited by fork() are not modelled.
- PathNormalizer.NormalizePath: relative paths are excluded, because the function is documented for absolute ones; resolving symbolic links is not modelled.
- PathNormalizer.StrCpy: source and destination overlap for ordinary paths, which C leaves undefined for strcpy(); the model copies byte by byte from the front.
- LineReader.RlBuf.ReadLineBuf: once the program copies more than the n bytes that it has, the model stops.
- LineReader.RlBuf.CopyLine: its room for the line is what the caller has checked; without it the caller stops.
- LineReader.ReadLine: errors of read() are not modelled.
- Tail.BlockTail: the copying to standard output after the seek, and read errors, are not modelled.
- RacyCounter.FinalValues: the counter is an unbounded integer; the program's int overflows from 2^30 rounds on.
- KvStore.Store.Get: the record is a value as of the call; the program hands out a pointer that a later call may free.
- Programs without a comparable core: the servers, clients and chat programs, daemons, benchmarks, signal, timer and fork demonstrations, ACL, xattr and stat tools, and the copies of the transfer programs in other chapters.
