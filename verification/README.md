# A verified model of the simulated file system

This project models the in-memory file storage server in Dafny 4.11 and proves what its parts promise. `dafny verify dfyconfig.toml` checks it.

The model has three layers.

1. **The Huffman codec over the min heap.** `MinHeap.dfy` is the array heap, changed in place. `HuffmanBuild.dfy` and `HuffmanCodec.dfy` are the algorithms as methods with loops: byte counts, the greedy tree, the dictionary over one shared code buffer, packing into 32-bit words, decoding. `HuffmanTree.dfy`, `HuffmanOptimality.dfy`, `HuffmanForest.dfy` and `BitArray.dfy` are the mathematics behind them.
2. **The file system.** `Protocol.dfy` is a state machine over locks, references, descriptors and blocked calls. Every public call is one step, because it runs under the file system's mutex; a call that waits for `file_is_lockable` is split into the step that blocks and the steps that resume it. Each property is proved for all the runs it holds in, and no others: `ProtocolAccounting.dfy` for every run, `ProtocolSession.dfy` for the end of a session in every state, `ProtocolReferences.dfy` for runs that create no name again over open descriptors, `ProtocolPending.dfy` for runs in which blocked processes make no call and no file with a pending lock is evicted, and `ProtocolSafety.dfy` for lock exclusion, which needs both and one thing more. `ProtocolCalls.dfy` says what each call does and when it gives which answer. `Inode.dfy`, `FileTable.dfy`, `DescriptorTable.dfy`, `Eviction.dfy` and `FileSystem.dfy` are the objects the calls change in place. Each call in `FileSystem.dfy` is proved to be the protocol's step on the objects' abstract value (`View`), a `Write` its run of evictions and an access; `Read` and `Write` are also proved to do what they should to the stored bytes. `Writing.dfy` says what a write does, as a run of the protocol, and what many writes do; `MakingRoom.dfy` says when evicting files makes room for one. `Scenarios.dfy` and `Overdraft.dfy` are methods that make several calls in a row. Which descriptors stay fresh, so that a write through them appends, and flushed, so that they can be read, is part of the contract of every call (`Keeps`).
3. **Indexes and queues.** `TernaryTree.dfy` and `SearchTreeNodes.dfy` (a ternary search tree against a map), `DescriptorTable.dfy` (least unused index), `WaitingList.dfy` (lazy against immediate deletion; first in, first out for each target), `BoundedQueue.dfy` (a monitor with two condition variables) and `Message.dfy` (the file-list wire format).

## What the proofs brought up

The code is modelled as it is. Where it does less than its documentation or a reader would expect, the model keeps that behaviour, and the exact condition is proved.

- A file of one repeated byte is lost: its tree is a single leaf and its code is empty. The round trip holds if and only if two different bytes occur (`HuffmanCodec.RoundTrip`), and so appends compose if and only if the first buffer has two different bytes (`Writing.AppendsCompose`).
- The `size` of a file counts 32-bit words of code, although limits and log messages call it bytes.
- An `open` that locks a file does not wait when the process holds no reference yet, because the check for other processes answers -1 and the loop waits only on 1. It then locks a file others have open, and they go on reading and writing it (`ProtocolSafety.ExclusionCanFail`). `ProtocolSafety.OpenExclusiveIff` says exactly which opens keep lock exclusion.
- The guard of `read` and `write` compares the caller with the lock field of the descriptor's own copy, which another process's lock never reaches. In no run does it stop anyone (`ProtocolCalls.AccessIff`).
- An `open` with O_LOCK that had to wait and then finds the descriptor table full fails, and keeps the lock (`ProtocolCalls.ResumeAnswers`).
- `close` keeps the lock (the code that releases it is commented out), while `doc/filesystem.md` lines 88-95 say that it unlocks. The model follows the code.
- An overdraft of exactly one unit makes the free space -1, which `write` takes for an error of the call that computes it. This is the only way a write to an empty, youngest file can fail while all other files can be read (`MakingRoom.EvictionMakesRoom`), and `MakingRoom.EvictionFailsIff` tells from the state before the call when it does. Such an overdraft is easily reached, because a write checks the size of the new part only: `Overdraft.Overdraw` gets there with two writes, and then every write fails and nothing is evicted any more (`MakingRoom.OverdraftBlocks`).
- Removing a file while no bytes are stored reports a failure although the file is gone, and leaves the monitor's file counter one too high (`FileSystemModule.FileSystem.Remove`, `FileSystemModule.FileSystem.RemoveInode`).
- `remove_session` fails when no file is stored, and when the process has a descriptor of a removed file whose name was created again; it then leaves all descriptors of the process open (`ProtocolSession.RemoveSessionIff`). In the second case it fails in the middle: files earlier in the list have already lost their references and locks (`ProtocolSession.SessionCanFail`).
- Evicting a file while a process waits to lock it leaves the waiter with a destroyed inode (`ProtocolPending.EvictedWhileWaiting`). No other step does (`ProtocolPending.NeverUndefined`), and evictions do no harm otherwise (`ProtocolSafety.EvictSafeIff`).
- The number at the head of a file list is read as a `long` and kept as an `int`: a number above the range of an `int` can become negative, and then the message decodes to an empty list (`Message.FileList.FromString`).
- A pushed process whose earlier entries are stale brings those entries back to life (`WaitingList.PushRefinesIff`).

## Model

| member | source | states |
|---|---|---|
| MinHeap.Heap.Insert | data-structures/src/gnl_min_heap_t.c:139-164 | storing with the greatest key and then decreasing it keeps the heap order and adds exactly that one entry |
| MinHeap.Heap.DecreaseKey | data-structures/src/gnl_min_heap_t.c:191-208 | a greater key is refused; otherwise the heap order is restored and one entry's key changed, nothing else |
| MinHeap.Heap.ExtractMin | data-structures/src/gnl_min_heap_t.c:169-186 | takes out exactly one entry, of least key among all, and keeps the heap order; nothing from an empty heap |
| MinHeap.Heap.Drain | file-system/src/gnl_simfs_file_descriptor_table.c:134-136 | taking entries out until none is left gives all of them, in the order of their keys |
| MinHeap.Heap.MinHeapify | data-structures/src/gnl_min_heap_t.c:82-101 | sifting down a root out of order restores the heap order and permutes the entries |
| MinHeap.RootIsLeast | data-structures/src/gnl_min_heap_t.c:82-101 | local order between parents and children makes the root least of all |
| MinHeap.SiftUpStep | data-structures/src/gnl_min_heap_t.c:191-208 | swapping a too small entry with its parent moves the only disorder up |
| MinHeap.SiftDownStep | data-structures/src/gnl_min_heap_t.c:82-101 | swapping a too large entry with its smallest child moves the only disorder down |
| BitArray.PutBit | helpers/include/gnl_macro_beg.h:50-51 | setting or clearing bit n of the words appends one bit to the sequence of the first n bits |
| BitArray.GrowBits | data-structures/src/gnl_huffman_tree.c:418-430 | one more word keeps all bits written so far |
| HuffmanBuild.CalculateFrequencies | data-structures/src/gnl_huffman_tree.c:110-124 | the table holds the multiplicity of every byte value |
| HuffmanBuild.CreateMinHeap | data-structures/src/gnl_huffman_tree.c:134-154 | the heap holds one leaf for each byte that occurs, weighted with its count, and nothing else |
| HuffmanBuild.CreateTree | data-structures/src/gnl_huffman_tree.c:164-199 | joining two least trees until one is left keeps the leaves and the greedy bound; no tree from an empty heap |
| HuffmanBuild.CreateDictionaryRecursive | data-structures/src/gnl_huffman_tree.c:238-280 | every leaf's entry is the buffer's prefix followed by the leaf's path; other entries stay; all writes stay below the depth of the subtree |
| HuffmanBuild.CreateDictionary | data-structures/src/gnl_huffman_tree.c:289-310 | with a buffer of tree-depth characters, each byte's entry is its root-to-leaf path, and no other byte has one |
| HuffmanTree.PrefixFree | data-structures/src/gnl_huffman_tree.c:238-280 | no byte's code is a prefix of another byte's code |
| HuffmanTree.UniqueParse | data-structures/src/gnl_huffman_tree.c:465-523 | bits that are codes plus an unfinished path can be read in one way only |
| HuffmanOptimality.Exchange | data-structures/src/gnl_huffman_tree.c:178-193 | the two least weights can be moved to two deepest sibling leaves at no cost |
| HuffmanOptimality.CollapseDeepest | data-structures/src/gnl_huffman_tree.c:178-193 | every tree with an inner node has two sibling leaves of greatest depth that can be merged into one |
| HuffmanOptimality.GreedyChoice | data-structures/src/gnl_huffman_tree.c:178-193 | a lower bound for all trees over the merged weights gives, plus the joint weight, one for all trees over the original weights |
| HuffmanForest.MergeLeast | data-structures/src/gnl_huffman_tree.c:178-193 | joining the trees of two least heap entries keeps the greedy bound, the leaves and the total weight |
| HuffmanForest.GreedyIsOptimal | data-structures/src/gnl_huffman_tree.c:164-199 | the greedy tree costs no more than any tree over the same leaves |
| HuffmanForest.CodeLength | data-structures/src/gnl_huffman_tree.c:403-445 | the number of code bits is the sum of frequency times depth |
| HuffmanCodec.GreedyTreeIsOptimal | data-structures/src/gnl_huffman_tree.c:164-199 | the built tree has a leaf for exactly the bytes that occur, and no such tree encodes them in fewer bits |
| HuffmanCodec.Init | data-structures/src/gnl_huffman_tree.c:333-359 | tree and dictionary of some bytes: an optimal tree and its paths; no bytes give no tree |
| HuffmanCodec.Encode | data-structures/src/gnl_huffman_tree.c:389-460 | the packed words hold exactly the codes of the bytes in order, over an optimal tree, in ceil(bitCount / 32) words; the bit count stays an int, as it can for these bytes; no bytes are refused |
| HuffmanCodec.Decode | data-structures/src/gnl_huffman_tree.c:465-523 | the result's codes are the artifact's bits, or it fails and the bits are no sequence of complete codes |
| HuffmanCodec.RoundTrip | data-structures/src/gnl_huffman_tree.c:389-523 | decoding an encoding never fails, and gives the bytes back if and only if two different bytes occur |
| HuffmanCodec.SameSize | data-structures/src/gnl_huffman_tree.c:389-460 | two encodings of the same bytes are equally long, however ties were broken |
| HuffmanCodec.NotLost | data-structures/src/gnl_huffman_tree.c:389-460 | bytes that are not lost take up at least one word |
| HuffmanCodec.BitCountBound | data-structures/src/gnl_huffman_tree.c:403-448 | an encoding takes at most eight bits a byte |
| ProtocolAccounting.StepAccounted | file-system/src/gnl_simfs_file_system.c:161-1077 | every step, eviction and unsafe opens included, keeps: the name list is the table without duplicates, counts are list lengths, references never exceed descriptors, and no copy shows another process's lock |
| ProtocolAccounting.ReferencesNeverExceedDescriptors | file-system/src/gnl_simfs_inode.c:237-292 | in every run from the empty file system, reference_count is the length of the list and no process has more references than descriptors on a file |
| ProtocolAccounting.ReferencesFit | file-system/src/gnl_simfs_inode.c:237-257 | a file never has more references than there are open descriptors |
| ProtocolAccounting.DropRefsLoses | file-system/src/gnl_simfs_inode.c:262-292 | dropping n references removes exactly n of that process, and fails exactly when it has fewer |
| ProtocolReferences.StepExact | file-system/src/gnl_simfs_file_system.c:161-1077 | every step, evictions, unheld locks and calls of blocked processes included, keeps references equal to descriptors, unless it creates a name again over open descriptors |
| ProtocolReferences.ReferencesAreDescriptors | file-system/src/gnl_simfs_inode.c:237-292 | in every run that creates no name again while a descriptor naming it is open, the references of a process are exactly its descriptors on the file |
| ProtocolReferences.OpenExactIff | file-system/src/gnl_simfs_file_system.c:161-316 | an open keeps references exact if and only if it does not create a name again over open descriptors |
| ProtocolPending.StepQueued | file-system/src/gnl_simfs_file_system.c:161-1077 | every step keeps the pending-lock protocol and uses no destroyed inode, whatever is opened or locked, if the caller is not blocked and no file with a pending lock is evicted |
| ProtocolSafety.StepInv | file-system/src/gnl_simfs_file_system.c:161-1077 | every disciplined step keeps exact references, exclusive locks and the pending-lock protocol together |
| ProtocolSafety.LockExclusion | file-system/src/gnl_simfs_file_system.c:400-414 | in every disciplined run, evictions included, the descriptors of a locked file belong to the lock owner, and its owner alone passes the guard of read and write, although the guard looks at the stale copy |
| ProtocolPending.PendingLock | file-system/src/gnl_simfs_file_system_rts.c:312-343 | in every run without eviction of a pending file, pending_locks counts the blocked processes, is at most 1, and a pending file is unlocked, cannot be removed and gains no reference |
| ProtocolPending.NoLostWakeup | file-system/src/gnl_simfs_inode.c:286-289 | in the same runs a blocked process that has become the only holder is awake and its next step locks the file; otherwise a woken process goes back to sleep |
| ProtocolPending.NeverUndefined | file-system/src/gnl_simfs_file_system_rts.c:286-342 | in the same runs no call uses a destroyed inode |
| ProtocolPending.EvictQueuedIff | file-system/src/gnl_simfs_file_system_rts.c:472-530 | an eviction keeps the pending-lock protocol if and only if no lock is pending on the file |
| ProtocolPending.EvictedWhileWaiting | file-system/src/gnl_simfs_file_system_rts.c:286-342 | after an eviction of a pending file its waiter, once woken, uses the destroyed inode |
| ProtocolPending.LastDropSignals | file-system/src/gnl_simfs_inode.c:286-289 | the drop that leaves one other process as only holder signals in that same step, even if the session tries to drop more references than there are |
| ProtocolSafety.OpenExclusiveIff | file-system/src/gnl_simfs_file_system.c:239-305 | an open keeps lock exclusion if and only if it does not lock a new file over another process's open descriptors, nor a file that only others hold |
| ProtocolSafety.ExclusionCanFail | file-system/src/gnl_simfs_inode.c:297-316 | after an open without a lock, another process can lock the file by opening it, and the first process still has access |
| ProtocolSafety.OpenSafeIff | file-system/src/gnl_simfs_file_system.c:239-305 | an open keeps references exact, locks exclusive and waiters safe, all at once, if and only if it is disciplined |
| ProtocolSafety.EvictSafeIff | file-system/src/gnl_simfs_file_system_rts.c:472-530 | an eviction keeps all of that if and only if no lock is pending on the file |
| ProtocolSession.RemoveSessionEnds | file-system/src/gnl_simfs_file_system.c:1001-1077 | with a file stored and the references of the process equal to its descriptors, remove_session succeeds, leaves no descriptor, reference or lock of the process, and all of everybody else's |
| ProtocolSession.RemoveSessionIff | file-system/src/gnl_simfs_file_system.c:1001-1077 | in every state with accounted references, remove_session succeeds exactly when a file is stored and the references of the process on all files equal its descriptors; otherwise all descriptors stay open |
| ProtocolSession.SessionCanFail | file-system/src/gnl_simfs_file_system.c:1024-1055 | a run of four calls after which remove_session fails although files are stored, having taken a reference and a lock on another file |
| ProtocolCalls.UnlockIff | file-system/src/gnl_simfs_file_system.c:706-765 | in every state, unlock succeeds if and only if the descriptor is the caller's and its file is stored and locked by the caller; then the lock is gone, and references, pending count, other files, descriptors and waits stay; otherwise nothing changes |
| ProtocolCalls.UnlockLetsIn | file-system/src/gnl_simfs_file_system.c:239-305 | in every run without eviction of a pending file, another process's open of a locked file fails with EBUSY, and its plain open after the owner's unlock succeeds if a descriptor is free |
| ProtocolCalls.LockTakes | file-system/src/gnl_simfs_file_system.c:635-701 | in every state, a lock call that succeeds leaves the file locked by its caller and changes that lock only; one that blocks adds the caller as pending waiter; any other answer changes nothing |
| ProtocolCalls.LockAnswers | file-system/src/gnl_simfs_file_system.c:635-701 | with accounted and exact references: success exactly if the caller has the lock, or nobody has it, none is pending and all descriptors of the file are the caller's; blocked exactly if another process has one; EBUSY, EDEADLK, ENOENT, EPERM, EBADF exactly for another owner, a pending lock, a missing file, another's descriptor, no descriptor |
| ProtocolCalls.OpenCreatesIff | file-system/src/gnl_simfs_file_system.c:161-316 | in every state, an open that creates succeeds exactly for a new name with a free descriptor and room, with the least unused descriptor, one reference and, with O_LOCK, the lock; otherwise nothing changes |
| ProtocolCalls.OpenAnswers | file-system/src/gnl_simfs_file_system.c:161-316 | with accounted and exact references, when open is answered EINVAL, ENFILE, ENOENT, EEXIST, EDQUOT, EBUSY, EDEADLK, with a descriptor, or blocks, told from lock owner, pending count and descriptors |
| ProtocolCalls.OpenStored | file-system/src/gnl_simfs_file_system.c:227-305 | in every state, a successful open of a stored file adds the least unused descriptor and one reference, locks the file if it was to, and changes nothing else; an open that blocks waits as an open |
| ProtocolCalls.CloseDoes | file-system/src/gnl_simfs_file_system.c:493-576 | in every state with accounted references, close takes away the caller's descriptor and one reference if it has one, and keeps lock, pending count and everybody else's references; with exact references it succeeds exactly for a descriptor of the caller |
| ProtocolCalls.RemoveIff | file-system/src/gnl_simfs_file_system.c:581-630 | in every state, remove gets past its checks exactly for a stored file locked by the caller; then the file is gone, its waiters are marked, and everything else stays; otherwise nothing changes |
| ProtocolCalls.AccessIff | file-system/src/gnl_simfs_file_system.c:400-414 | in every run whatsoever, the guard lets through exactly the owner of a descriptor whose file is stored, and never answers EBUSY |
| ProtocolCalls.ResumeAnswers | file-system/src/gnl_simfs_file_system_rts.c:286-342 | a woken call goes back to sleep exactly while others hold the file; otherwise it takes the lock, and an open then gets its descriptor, or EMFILE with the lock kept, while a lock call succeeds |
| ProtocolCalls.BlockedOpen | file-system/src/gnl_simfs_file_system.c:239-305 | in every run without eviction of a pending file, an open that blocked, whatever others do until it goes on, ends with the lock and a new descriptor for the file, unless the descriptor table is full |
| ProtocolCalls.BlockedLock | file-system/src/gnl_simfs_file_system.c:635-701 | likewise, a lock call that blocked succeeds and holds the lock as soon as it goes on as the only holder |
| InodeModule.Inode.Copy | file-system/src/gnl_simfs_inode.c:490-524 | a copy shares the file and the lock field, but has no references and no buffer |
| InodeModule.Inode.DecreaseRefs | file-system/src/gnl_simfs_inode.c:262-292 | drops one reference of the process or fails, and signals exactly when the file may have become lockable |
| InodeModule.Inode.FileLock | file-system/src/gnl_simfs_inode.c:321-344 | locks an unlocked file or one's own, and refuses another process's |
| InodeModule.Inode.FileUnlock | file-system/src/gnl_simfs_inode.c:349-372 | unlocks one's own file, accepts an unlocked one, refuses another process's |
| InodeModule.Inode.Write | file-system/src/gnl_simfs_inode.c:419-451 | appends to the buffer; writing nothing is an error |
| InodeModule.Inode.Read | file-system/src/gnl_simfs_inode.c:456-485 | gives the contents back if and only if the file is neither missing nor one repeated byte, and re-encodes it with the same size |
| InodeModule.Inode.Fflush | file-system/src/gnl_simfs_inode.c:529-579 | the new block encodes the old contents followed by the buffer, and the buffer is empty |
| FileTableModule.ResizeConsistent | file-system/src/gnl_simfs_file_table.c:237-258 | changing one file's size and the total by the same amount keeps the total the sum of the sizes |
| FileTableModule.RemoveConsistent | file-system/src/gnl_simfs_file_table.c:285-300 | removing a name once from the list keeps list, count and total in step |
| FileTableModule.FileTable.Create | file-system/src/gnl_simfs_file_table.c:182-214 | adds an empty file at the end of the list, refuses a present name, and keeps list, count and total in step |
| FileTableModule.FileTable.Remove | file-system/src/gnl_simfs_file_table.c:274-303 | removes exactly that file and its size, and refuses an absent name |
| FileTableModule.FileTable.Fflush | file-system/src/gnl_simfs_file_table.c:219-269 | appends the buffer of a fresh copy to its file and adjusts the total by the difference in size; without a buffer only the time changes |
| FileTableModule.Monitor.Removed | file-system/src/gnl_simfs_file_system_rts.c:239-243 | the bytes are taken off; when none were counted the call fails and the file stays counted |
| DescriptorTable.NoHoles | file-system/src/gnl_simfs_file_descriptor_table.c:184-186 | a table without holes is full up to its size, which is then the least unused index |
| DescriptorTable.LeastHole | file-system/src/gnl_simfs_file_descriptor_table.c:173-182 | the least entry of the heap of free indices is the least unused index |
| DescriptorTable.Descriptors.Put | file-system/src/gnl_simfs_file_descriptor_table.c:216-263 | stores a copy at the least unused index and keeps all live entries through a reallocation; a full table refuses |
| DescriptorTable.Descriptors.Remove | file-system/src/gnl_simfs_file_descriptor_table.c:268-287 | empties exactly that slot for its owner, and answers EBADF or EPERM otherwise |
| DescriptorTable.Descriptors.RemovePid | file-system/src/gnl_simfs_file_descriptor_table.c:292-312 | removes exactly the entries of one process |
| DescriptorTable.Descriptors.Get | file-system/src/gnl_simfs_file_descriptor_table.c:317-337 | finds the copy of an open descriptor for its owner, and answers EBADF or EPERM otherwise |
| DescriptorTable.Descriptors.PidInodeSize | file-system/src/gnl_simfs_file_descriptor_table.c:351-370 | counts the descriptors of a process on a file |
| Eviction.SelectVictim | file-system/src/gnl_simfs_file_system_rts.c:404-500 | no stored file was created before the victim under FIFO, nor after it under LIFO, none was changed before it under LRU, nor after it under MRU, and none has fewer references under LFU; no victim exactly when no file is stored |
| Eviction.LeastKeyGoesFirst | file-system/src/gnl_simfs_file_system_rts.c:428-452 | the order of the keys is the order of birth times, change times or reference counts that the policy stands for |
| Eviction.AccountedFit | file-system/src/gnl_simfs_file_system_rts.c:404-470 | in every run the reference counts used as keys fit into an int |
| MakingRoom.ShelteredStuck | file-system/src/gnl_simfs_file_system.c:361-392 | if evicting gets stuck around an empty, youngest target with all other files readable, nothing else is left |
| Eviction.LeastFirst | file-system/src/gnl_simfs_file_system_rts.c:404-500 | the victims of one write come in non-decreasing order of their keys |
| MakingRoom.EvictionMakesRoom | file-system/src/gnl_simfs_file_system.c:346-426 | a write that fits the memory at all, to an empty file of strictly greatest key with every other file readable, evicts only other files and either succeeds within the limit or stops on an overdraft of exactly one unit; never the latter if the memory was not overdrawn |
| MakingRoom.YoungestIsSheltered | file-system/src/gnl_simfs_file_system_rts.c:428-432 | under FIFO the target of such a write is an empty file whose birth time is strictly the latest, while all other files can be read, and nothing else |
| Scenarios.WriteToYoungest | file-system/src/gnl_simfs_file_system.c:346-426 | under FIFO a write to an empty file of strictly latest birth time, all other files being readable, evicts only others, and succeeds within the limit if the memory was not overdrawn and the buffer is no longer than the memory |
| MakingRoom.EvictionFailsIff | file-system/src/gnl_simfs_file_system.c:358-392 | such a write fails, with distinct keys, if and only if the size before the call, or what is left of it after all files up to some key are evicted, is one above the limit; with equal keys it fails if this holds, and only if evicting some files, least keys first, would leave that overdraft |
| MakingRoom.OverdraftBlocks | file-system/src/gnl_simfs_file_system.c:358-392 | with the memory overdrawn by one unit no write evicts or succeeds |
| Writing.NoPolicyNoEviction | file-system/src/gnl_simfs_file_system.c:366-388 | under policy NONE, or without a list for the victims, a write evicts nothing and is one access step; it succeeds only with room, and otherwise fails with E2BIG, EDQUOT or EINVAL exactly as the policy, the list and the sizes say |
| Writing.WriteIsRun | file-system/src/gnl_simfs_file_system.c:321-434 | whatever its outcome, a write takes the protocol through its evictions and then an access |
| Writing.AppendsCompose | file-system/src/gnl_simfs_file_table.c:237-258 | after any number of writes to an empty file its contents are all the buffers in order if and only if the first buffer has two different bytes |
| Scenarios.WriteAll | file-system/src/gnl_simfs_file_system.c:321-434 | buffers written one after the other through one descriptor all reach the file if there is room for them; the descriptor stays usable |
| Scenarios.ReadAll | file-system/src/gnl_simfs_file_system.c:439-488 | reads one after the other, through any flushed descriptors, each return what a read before the first would have returned, and leave all contents and sizes as they were |
| Scenarios.WriteThenRead | file-system/src/gnl_simfs_file_system.c:321-488 | after any number of writes to an empty file, every read of it that passes the guard, through any descriptor and any number of times, returns all that was written if and only if the first buffer has two different bytes; the writes succeed if there is room, and the file keeps its size and contents |
| Scenarios.CreateWriteRead | file-system/src/gnl_simfs_file_system.c:161-488 | creating a file, writing to it, letting other processes open it, and reading it twice through all its descriptors returns what was written every time, if and only if the first buffer has two different bytes; with room for all, the writes succeed |
| Overdraft.MixedSize | data-structures/src/gnl_huffman_tree.c:403-448 | the shortest code of two bytes followed by 32 times a third takes two words |
| Overdraft.Overdraw | file-system/src/gnl_simfs_file_system.c:346-392 | two writes, neither refused, take a memory of one unit to an overdraft of one unit |
| FileSystemModule.FileSystem.Open | file-system/src/gnl_simfs_file_system.c:161-316 | an open that creates succeeds exactly for a new name that is not empty, with a free descriptor, fewer files than the limit and a stored size other than the memory limit, and otherwise changes nothing; every open is the protocol's, with its order of checks; its descriptor is fresh, and so stay the others, unless a name is created again over them |
| FileSystemModule.FileSystem.LockInode | file-system/src/gnl_simfs_file_system_rts.c:267-343 | is the protocol's lock step: refused when a lock is pending, blocked while others hold the file, locked otherwise |
| FileSystemModule.FileSystem.Resume | file-system/src/gnl_simfs_file_system_rts.c:286-342 | is the protocol's resumption of a woken lock call, which is undefined if its inode was destroyed, even if the name was created again |
| FileSystemModule.FileSystem.Close | file-system/src/gnl_simfs_file_system.c:493-576 | is the protocol's close: the descriptor and one reference go, a lock stays, and a waiter may be woken |
| FileSystemModule.FileSystem.Lock | file-system/src/gnl_simfs_file_system.c:635-701 | answered with success, the caller holds the lock of its descriptor's file and nothing else changed; blocked, the caller waits and is counted as pending; refused, nothing changed; and it is the protocol's lock |
| FileSystemModule.FileSystem.Unlock | file-system/src/gnl_simfs_file_system.c:706-765 | succeeds exactly if the descriptor is the caller's and its file is stored and locked by the caller; then the file is unlocked and nothing else changed; otherwise nothing changed |
| FileSystemModule.FileSystem.CreateInode | file-system/src/gnl_simfs_file_system_rts.c:80-128 | creates exactly one empty file if fewer files than the limit are stored and the stored size is not the memory limit, and otherwise nothing |
| FileSystemModule.FileSystem.WithinFilesLimit | file-system/src/gnl_simfs_file_system_rts.c:86-97 | the number of stored files never exceeds the limit: it holds after the constructor, and every call keeps it |
| FileSystemModule.FileSystem.RemoveInode | file-system/src/gnl_simfs_file_system_rts.c:215-255 | takes exactly one file out; fails, and leaves the file counted, exactly when no bytes were stored |
| FileSystemModule.FileSystem.Remove | file-system/src/gnl_simfs_file_system.c:581-630 | is the protocol's remove, but reports a failure when the table held no bytes |
| FileSystemModule.FileSystem.RemoveSession | file-system/src/gnl_simfs_file_system.c:1001-1077 | the loops over files and descriptors are the protocol's session removal |
| FileSystemModule.FileSystem.Read | file-system/src/gnl_simfs_file_system.c:439-488 | after the guard, returns exactly the file's contents if it can be decoded; all contents, all sizes, the protocol state and all copies stay, and so do the blocks of all other files |
| FileSystemModule.FileSystem.Evict | file-system/src/gnl_simfs_file_system_rts.c:472-530 | hands over and removes a file of least key with its contents, or gets stuck on one that cannot be read, or on an empty table, and then removes nothing and keeps all contents |
| FileSystemModule.FileSystem.MakeRoom | file-system/src/gnl_simfs_file_system.c:358-392 | the eviction loop ends; it evicts in key order, only while room is missing and the policy, the list and the size allow it, succeeds exactly when there is room, and otherwise says why it gave up, with the contents of the files left untouched |
| FileSystemModule.FileSystem.FflushBuffer | file-system/src/gnl_simfs_file_system_rts.c:138-172 | flushing a fresh copy appends its buffer to the one file, and counts the difference in the monitor |
| FileSystemModule.FileSystem.Write | file-system/src/gnl_simfs_file_system.c:321-434 | in the order of the code: the checks, the evictions that were needed, the guard, and then exactly the target is extended by the buffer; refused, it leaves the contents of all files left; it is a run of evictions and an access; no other copy changes, its descriptor stays fresh, and so do those of other files |
| TernaryTree.GetAfterPut | data-structures/src/gnl_ternary_search_tree_t.c:62-130 | a put changes what is found under its key, and under no other |
| TernaryTree.GetAfterRemove | data-structures/src/gnl_ternary_search_tree_t.c:175-216 | a removal takes away what is found under its key, and under no other |
| TernaryTree.Remove | data-structures/src/gnl_ternary_search_tree_t.c:175-216 | the nodes reported for freeing hold no data and no children |
| TernaryTree.PutRefines | data-structures/src/gnl_ternary_search_tree_t.c:62-104 | put is map update, and keeps the order of every level |
| TernaryTree.RemoveRefines | data-structures/src/gnl_ternary_search_tree_t.c:175-216 | removal is map deletion, and keeps the order of every level |
| TernaryTree.PresentHasPath | data-structures/src/gnl_ternary_search_tree_t.c:221-227 | a present key can be removed without dereferencing a null pointer |
| SearchTreeNodes.PutNode | data-structures/src/gnl_ternary_search_tree_t.c:62-104 | linking nodes in place does what the value-level put does |
| SearchTreeNodes.GetNode | data-structures/src/gnl_ternary_search_tree_t.c:109-130 | the search over linked nodes finds what the value-level search finds |
| SearchTreeNodes.RemoveNode | data-structures/src/gnl_ternary_search_tree_t.c:175-216 | clearing data and cutting off nodes in place does what the value-level removal does |
| SearchTreeNodes.SearchTree.Put | data-structures/src/gnl_ternary_search_tree_t.c:62-104 | the tree as a map is updated at one key; an empty key is refused, a null element deletes |
| SearchTreeNodes.SearchTree.Get | data-structures/src/gnl_ternary_search_tree_t.c:109-130 | looks the key up in the map |
| SearchTreeNodes.SearchTree.Remove | data-structures/src/gnl_ternary_search_tree_t.c:221-227 | deletes the key from the map; an empty tree refuses |
| SearchTreeNodes.SearchTree.RemovePresent | data-structures/src/gnl_ternary_search_tree_t.c:221-227 | a key that can be found is removed, with no condition on the tree |
| BoundedQueue.StepInv | data-structures/src/gnl_ts_bb_queue_t.c:110-160 | any step, barging and spurious wakeups included, keeps the bound, and keeps enough woken calls to use up the elements or the room whenever someone sleeps |
| BoundedQueue.FirstInFirstOut | data-structures/src/gnl_ts_bb_queue_t.c:110-160 | in every run the elements `enqueue` was called with, in the order in which the calls found room, are what came out, in order, followed by what is queued |
| BoundedQueue.WaitsWithArgument | data-structures/src/gnl_ts_bb_queue_t.c:110-133 | a producer that waits, in any run, waits with the element of its own latest call |
| BoundedQueue.WorkIsDone | data-structures/src/gnl_ts_bb_queue_t.c:110-160 | while a consumer sleeps and an element is queued, a woken consumer can take one at once; likewise for producers and room |
| BoundedQueue.NoDeadlock | data-structures/src/gnl_ts_bb_queue_t.c:110-160 | with no call runnable, consumers sleep only on an empty queue, producers only on a full one, and never both |
| BoundedQueue.BlockingQueue.Enqueue | data-structures/src/gnl_ts_bb_queue_t.c:110-133 | one run of the monitor is the enqueue step: it blocks exactly when the queue is full |
| BoundedQueue.BlockingQueue.Dequeue | data-structures/src/gnl_ts_bb_queue_t.c:138-160 | one run of the monitor is the dequeue step: it blocks exactly when the queue is empty, else returns its head |
| BoundedQueue.Create | data-structures/src/gnl_ts_bb_queue_t.c:50-79 | an empty queue; a bound that is not positive is refused |
| WaitingList.Waiting.Push | server/src/gnl_fss_waiting_list.c:210-298 | puts the entry behind all others queued for its target, leaves the entries of all other targets, and marks the process present once more |
| WaitingList.PushAtEnd | server/src/gnl_fss_waiting_list.c:244-279 | for all lists, the entries found under the target afterwards are the old ones followed by the new one; those of every other target stay |
| WaitingList.PopsInOrder | server/src/gnl_fss_waiting_list.c:210-434 | in every run, removals included, what the pops of a target return, followed by what is still queued for it, is what was pushed for it, in that order, with some entries left out |
| WaitingList.RemovesOnlyRemoved | server/src/gnl_fss_waiting_list.c:210-434 | in every run, of the processes that are never removed every entry pushed for a target is popped, in order, or still queued |
| WaitingList.FirstInFirstOut | server/src/gnl_fss_waiting_list.c:210-410 | in every run without removals, what was pushed for a target is what was popped for it, in order, followed by what is queued |
| WaitingList.Waiting.Pop | server/src/gnl_fss_waiting_list.c:303-410 | drops the entries of absent processes, returns the first other one, and unmarks its process once |
| WaitingList.Waiting.Remove | server/src/gnl_fss_waiting_list.c:415-434 | unmarks all occurrences of the process, and touches no queue |
| WaitingList.RunBounded | server/src/gnl_fss_waiting_list.c:210-434 | in every run no process is present more often than it is queued |
| WaitingList.PushRefinesIff | server/src/gnl_fss_waiting_list.c:210-298 | a push does what a list with immediate deletion would do if and only if the process has no stale entry |
| WaitingList.PopRefines | server/src/gnl_fss_waiting_list.c:340-397 | a pop returns, and leaves, what a list with immediate deletion would |
| WaitingList.RemoveRefines | server/src/gnl_fss_waiting_list.c:415-434 | a removal looks like the immediate deletion of all entries of the process |
| WaitingList.RunsAgree | server/src/gnl_fss_waiting_list.c:210-434 | in every run without a push over stale entries, all pops return what a list with immediate deletion returns |
| Message.RecordRoundTrip | message/src/gnl_message_snb.c:74-132 | a record with a NUL-free name whose size is an int is read back from its string, whatever follows, and the string is as long as the size function says |
| Message.RecordFormat | message/src/gnl_message_snb.c:74-86 | the layout of a record: ten digits of the name length, the name, ten digits of the byte count, a NUL, the bytes; most significant digits first |
| Message.DecodeAll | message/src/gnl_message_nq.c:157-174 | decoding step by step, each offset advanced by the record's size, gives back all records |
| Message.ListRoundTrip | message/src/gnl_message_nq.c:61-177 | decoding an encoded file list gives back its records, in order |
| Message.FileList.ToString | message/src/gnl_message_nq.c:61-126 | the loop over the drained queue encodes all records, and the queue is as before |
| Message.FileList.FromString | message/src/gnl_message_nq.c:131-177 | succeeds exactly when the message decodes, blanks and signs before numbers included; its records, or if it fails those before the faulty one, are appended to the queue; the number is the int the code keeps |

## Left out

- Sockets, the select loop, workers, pipes, signals, configuration, option parsing, logging and the saving of files: input and output.
- The broadcast loop of the worker: a request it puts back on the queue it is draining may come round again for ever.
- Memory allocation failures, the destroy functions, mutex errors, and error numbers beyond the kind of failure. `EUNSET` stands for an error number that the model does not determine.
- Clocks: each call gets the time as a parameter; modification and access times are not modelled.
- The ternary search tree inside the file table: `FileTable` holds a map; that the tree is a map is proved in `SearchTreeNodes.dfy`, whose keys are what `FileTable` calls names.
- Characters beyond 7 bits compare as Dafny characters, not as C's signed `char`; the laws of the tree do not depend on the order.
- FileSystemModule.FileSystem.Write: writes through a copy that is no longer fresh (another descriptor wrote, or someone read the file since) are excluded by a precondition, because the source then uses a freed block. An eighth of the greatest `int` bounds the length of the file, so that its bits can be counted; longer files with short codes are left out.
- FileSystemModule.FileSystem.Read: it requires that no bytes are left in the copy's buffer. All calls keep descriptors so (`Keeps`), except that bytes are left when a write fails on a removed file and the name is created again.
- MakingRoom.EvictionFailsIff: with equal keys the heap decides which file goes first, so the two conditions do not meet.
- MakingRoom.EvictionMakesRoom: says nothing about targets that already have contents; for them the source only checks the size of the new part, and the total may exceed the limit.
- Message.FileList.FromString: a message that ends too early, where the source reads past its end, is a failure, and so are a record without digits at its head, where the source uses an unset length, and a negative length, which the source takes for a huge one. Message sizes are assumed to be an `int`.
- The number of units a flush adds is a signed difference passed as unsigned; the sum wraps around to the same value, and the model adds it as an integer.
- `ls`, `stat`, `fstat` and `status`, the stack, the non-blocking queue and the fixed-layout messages: simpler than what is modelled.
