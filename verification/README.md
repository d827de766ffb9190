# StackVault, modelled and proved in Dafny

StackVault hides a function's stack frame before the function calls untrusted code
and puts the frame back afterwards. The parameters the callee needs stay readable.
This project models the parts of StackVault that carry that promise, in the form the
source has them (classes, methods with loops, memory that is written in place), and
proves what they do on every input and over every run.

`dafny verify dfyconfig.toml` checks the whole project.

## How the project is laid out

| file | models | main results |
|---|---|---|
| `Bytes.dfy` | bytes, little-endian words, user memory, `memcpy`, `memset` | a stored word is the bytes that were loaded |
| `Parameters.dfy` | the parameter entry of kernel_patches/patch3.diff | |
| `StackBufs.dfy` | kernel_probe/stack_buf.c | the restore loop completes exactly when the holes are in the right copy and pairwise separate, and then writes exactly their complement |
| `FrameScan.dfy` | `contains` and the scan of kernel_probe/jprobe.c | the saved runs partition the frame minus the by-value parameters |
| `Pointers.dfy` | `find_in_stack_buf`, `restore_pointers` | the exposed bytes are exactly the pointer chains and targets of the original memory; exactly when following them faults |
| `Vault.dfy` | `jsys_encrypt_stack`, `jsys_decrypt_stack` | the code refines a state machine; the two stacks move in lockstep; exactly when an encrypt call faults |
| `Runs.dfy` | whole runs: calls interleaved with arbitrary writes of the process | round trip, transparency, isolation, when decryption succeeds, and that runs of the code are such runs |
| `Words.dfy`, `XorStack.dfy` | kernel_probe/stack_encrypt.c | xor round trip for any parameter list, exact touched range |
| `Memset.dfy` | `glibc_memset` | refines the byte fill, with its store counts |
| `HashTable.dfy` | clear_stack/hash.c | refines a map; when a key keeps its bin |
| `Symbols.dfy` | kernel_probe/mapper.c, kernel_probe/parse_elf.c | symbol lookup end to end, structures read as written, growth cost |
| `StackAreas.dfy` | `get_stack_areas` | correct translation if and only if neighbouring pages have different frames |
| `CallGraph.dfy` | the marking loop of parser.py | termination, the exact list that results, soundness, completeness |

## Decisions

- User memory is a sequence of bytes held by one shared `Memory` object; kernel copies
  are separate byte sequences, and a kernel address is a pair of copy and offset. The
  parameter list is an object of its own: it lies outside the frame, as in the test
  programs, where it is allocated on the heap.
- What the C code leaves undefined is modelled as a fault (`Oops`, `Crash`, `Fault`, `ok == false`)
  rather than excluded: a null or out-of-copy kernel read in a pointer chain, a `memcpy`
  with a negative length, a difference of pointers into two different copies, a slot
  freed by the growth past 32 segments, hole lists moved by value, a 17th nested frame, a
  read outside an ELF image, an ELF image without a static symbol table,
  a decrypt call before the first encrypt call, and a decrypt call whose address has no
  name. A fault ends the run. Theorems say exactly when a fault occurs:
  `VaultSpec.EncryptFaultsIff` for encrypt calls, `Runs.DecryptSucceedsIff` for decrypt
  calls, `Elf.FunctionAt` for the symbol lookup, `StackAreas.GetStackAreas` for the area list.
- `pointer` is a 32-bit `int` that wraps when it is decremented below the minimum, so
  negative depths need no precondition. Sums of user addresses in the range test wrap
  modulo 2^64. By-value parameters are required not to wrap, and memory ends below
  2^64 - 1, so that the scan's `i++` past rbp does not wrap either.
- The fill value of `glibc_memset` is an `int`, given by its 32 bits.
- `list_sort` is a stable sort by the module's own comparator.
- `htHash` starts from an uninitialised variable. Its value is a parameter, `seed`, of
  every call, so that one fixed value is a special case and not an assumption.
- `networkx.all_simple_paths` is any function that yields exactly the simple paths
  between different nodes, and any closed walks from a node to itself.
- The page lookup of `get_stack_areas` is an arbitrary function from page to frame.

## What turned out not to hold, and exactly when it does

- An encrypt call faults if and only if it is accepted and the save stack is full, or a
  pointer parameter before the first missing one has a chain that leaves the saved copies,
  or there is such a parameter and the frame has more than 32 saved copies
  (`VaultSpec.EncryptFaultsIff`, `Runs.FaultExample`). A chain leaves the copies if one of
  its pointer words is in no copy, or its target wraps around the address space and a copy
  still passes the wrapped range test; a target that is in no copy is only skipped.
- A hidden frame can be put back if and only if it has at most 32 saved copies, all exposed
  pointer words and targets are in the first copy, and of any two the one that starts first
  ends before the other starts, where of two that start together the one exposed first comes
  first (`Runs.DecryptableIff`, `Runs.DecryptSucceedsIff`). An empty target at the start of a word filed before is enough
  to break this. Naming one pointer variable twice, or a pointer variable beyond the end of
  the first saved copy, makes decryption fault, provided these entries come before the first
  missing one (`Runs.SamePointerTwice`, `Runs.PointerBeyondFirstCopy`, `Runs.AliasedExample`).
- The pointer counts of a list are used up by a call. The same list passed again files no
  hole and keeps every variable by value, pointers included (`Runs.ReusedList`,
  `Pointers.SpentKeeps`).
- `restore_pointers` stops at the first pointer variable that is not saved, and its result
  is ignored, so that later pointer parameters stay hidden (`Runs.MissingExample`).
  `Runs.HiddenBytes` says which bytes are hidden in every case.
- The scan keeps exactly the by-value parameters if and only if `contains` never answers 0
  at a position it is asked about inside one (`FrameScan.ScanPartitionIff`). A parameter
  that starts below rsp is partly hidden (`FrameScan.ParameterBelowFrame`); well placed
  parameters are all kept (`FrameScan.ScanPartition`).
- `get_stack_areas` names wrong physical addresses as soon as two neighbouring pages
  share a frame (`StackAreas.SplitCorrectIff`, `StackAreas.SharedFrameExample`), and reports one byte for an empty range
  (`StackAreas.SplitLength`).
- The hash table loses short keys when the uninitialised accumulator differs between
  calls (`HashTable.ShortKeyLost`). For values that can be told apart a lookup is right if
  and only if the last call for the key hashed it to the bin the lookup looks at
  (`HashTable.RefinesMapIff`); `HashTable.GetIsLastInBin` says what it answers in every
  case, and ASCII keys of at least eight characters are safe (`HashTable.LongKeysAnySeed`).
- A symbol whose range reaches the end of the address space is never found, because the
  end of the range wraps to a small number (`Elf.MatchesExactly`, `Elf.TopSymbolMissed`).
- The xor variant writes up to eight bytes past rbp, and its loop over trailing bytes
  never runs (`XorStack.TouchedRange`, `XorStack.CryptStack`).

## Model

| member | source | states |
|---|---|---|
| `Bytes.StoreAfterLoad` | kernel_probe/jprobe.c:118-119 | storing a word loaded from a copy writes back exactly the loaded bytes, for any number of bytes |
| `Bytes.DecodeSplit` | kernel_probe/jprobe.c:118-126 | a word is little-endian: the bytes from position i on count 256^i times their own value |
| `Bytes.LoadAfterStore` | kernel_probe/jprobe.c:119-126 | a value that fits is read back as it was stored |
| `StackBufs.CmpIsAddressOrder` | kernel_probe/stack_buf.c:71-78 | the comparator truncated to `int` equals the address difference when it is less than 2^31 either way |
| `StackBufs.SortElements` | kernel_probe/stack_buf.c:94 | sorting keeps every hole with its multiplicity |
| `StackBufs.SortedEndToEnd` | kernel_probe/stack_buf.c:94 | in a copy under 2^31 bytes the sorted holes ascend, and they can be stepped over one after the other if and only if they are pairwise separate in the order they were filed |
| `StackBufs.SteppableIff` | kernel_probe/stack_buf.c:88-111 | the restore loop gets over the holes of a copy if and only if all lie inside that copy and are pairwise separate as filed |
| `StackBufs.StackBuf.constructor` | kernel_probe/stack_buf.c:7-18 | a new block is empty and has the given capacity |
| `StackBufs.CopyStackBuf` | kernel_probe/stack_buf.c:20-69 | appends a copy of the bytes with an empty hole list; a full block is replaced by one of twice the size, with its records, and freed while the caller's slot still names it |
| `StackBufs.Grow` | kernel_probe/stack_buf.c:27-55 | the new block holds the same segments and hole lists in the same order |
| `StackBufs.RestoreRecord` | kernel_probe/stack_buf.c:88-112 | completes if and only if the sorted holes lie in the copy end to end, keeps `from - buf == to - start`, and writes exactly the complement of the holes |
| `StackBufs.RestoreIgnoresOrder` | kernel_probe/stack_buf.c:94-106 | the bytes written do not depend on the order of the holes |
| `StackBufs.RestoreStackBuf` | kernel_probe/stack_buf.c:80-116 | completes if and only if the block is still allocated and every record can be stepped over; then every saved byte outside the holes is back, nothing else changed, and `cur == 0` |
| `FrameScan.KeepAtDecides` | kernel_probe/jprobe.c:64-76 | for every list, by index: the first entry for the address decides (its size if by value, 0 if a pointer), whatever other entries are listed; 0 if there is none |
| `FrameScan.Contains` | kernel_probe/jprobe.c:60-77 | the same for the code |
| `FrameScan.KeepAtIsListed` | kernel_probe/jprobe.c:64-74 | a non-zero answer is the size of a listed by-value parameter at that address |
| `FrameScan.ScanSeparated` | kernel_probe/jprobe.c:340-362 | saved runs are non-empty, ascending, inside the frame and separated, for any parameter list |
| `FrameScan.ScanComplement` | kernel_probe/jprobe.c:340-362 | for any parameter list the saved runs are exactly the frame minus what the scan stepped over |
| `FrameScan.SweptIsByValue` | kernel_probe/jprobe.c:341-350 | for parameters that start in the frame, are not shadowed by a pointer or empty entry at their address and do not stick out of one another, what the scan steps over is exactly the by-value parameters |
| `FrameScan.ScanPartition` | kernel_probe/jprobe.c:336-362 | for such parameters the union of the saved runs is exactly `[rsp, rbp)` minus the by-value parameters, including those that end at or cross rbp |
| `FrameScan.UnsweptIsRefused` | kernel_probe/jprobe.c:340-361 | a frame byte is not stepped over if and only if `contains` was asked about it and answered 0; what is stepped over always belongs to a by-value parameter |
| `FrameScan.ScanPartitionIff` | kernel_probe/jprobe.c:336-362 | for every parameter list, the union is the frame minus the by-value parameters if and only if `contains` never answers 0 at a visited position inside a by-value parameter |
| `FrameScan.ParameterBelowFrame` | kernel_probe/jprobe.c:340-356 | a concrete by-value parameter that starts below rsp and is hidden where it reaches into the frame |
| `FrameScan.VeilRun` | kernel_probe/jprobe.c:345-348 | saving and overwriting one more run hides exactly that run, and what is saved is the original |
| `FrameScan.SaveRun` | kernel_probe/jprobe.c:345-355 | the same for the code, empty runs included: block, slot and memory stay in agreement with the runs saved so far |
| `FrameScan.HideRuns` | kernel_probe/jprobe.c:336-362 | the scan saves the runs from the original memory, overwrites exactly them with '0', terminates, and leaves the slot with a freed block if and only if there are more than 32 |
| `Pointers.FindFromExact` | kernel_probe/jprobe.c:79-90 | without wrap-around, a copy that contains the whole range is found if and only if there is one |
| `Pointers.FindInStackBuf` | kernel_probe/jprobe.c:79-90 | returns the first record that passes the range test, and the offset in it |
| `Pointers.DecrementLevels` | kernel_probe/jprobe.c:109-139 | each decrement of `pointer` uses up one level, wrap-around included, so the chain loop terminates |
| `Pointers.LiftVeil` | kernel_probe/jprobe.c:118-124 | writing saved bytes back and filing them as a hole exposes exactly those bytes, with their original values |
| `Pointers.Expose` | kernel_probe/jprobe.c:146-151 | the same for the code: live memory, hole list and veil stay in agreement |
| `Pointers.ExposeWord` | kernel_probe/jprobe.c:131-140 | the word read back from the live stack is the word of the original memory |
| `Pointers.FollowLinks` | kernel_probe/jprobe.c:128-141 | the chain followed in partly restored memory is the chain in the original memory; the level count ends at 0 |
| `Pointers.ExposeTarget` | kernel_probe/jprobe.c:143-154 | the target is exposed if a copy holds all of it, and skipped otherwise |
| `Pointers.FollowChain` | kernel_probe/jprobe.c:118-154 | one pointer parameter exposes exactly its trail in the original memory, or faults exactly when the trail does |
| `Pointers.RestorePointer` | kernel_probe/jprobe.c:103-155 | adds the first lookup, which alone is checked for NULL |
| `Pointers.RestorePointers` | kernel_probe/jprobe.c:92-158 | after all parameters exactly the holes prescribed by the original memory are filed and exposed; the result tells 0, -1 and a fault apart; the pointer counts of the list are used up |
| `Pointers.FindFromIff` | kernel_probe/jprobe.c:83-88 | wrap-around included, the lookup answers NULL if and only if no record passes the range test |
| `Pointers.FindWrapped` | kernel_probe/jprobe.c:85 | a range that wraps is in no copy, and what is found for it reaches out of the copy |
| `Pointers.FollowFaultsIff` | kernel_probe/jprobe.c:118-147 | following a chain faults if and only if one of its pointer words is in no copy, or its target wraps and a copy passes the range test |
| `Pointers.FollowExposesChain` | kernel_probe/jprobe.c:111-151 | a chain that does not leave the copies does not fault, and its holes cover exactly its pointer words and its target |
| `Pointers.FileEnds` | kernel_probe/jprobe.c:100-157 | the outcome for every list: a fault if and only if some pointer parameter before the first missing one leaves the copies or the block was moved, else -1 at the first missing one, else 0 |
| `Pointers.FileExposesChains` | kernel_probe/jprobe.c:100-157 | unless some chain leaves the copies, a byte is exposed if and only if it is on the chain or in the target of a pointer parameter before the first one whose pointer word is not saved; that entry is where -1 is returned |
| `Pointers.DepthIsPointer` | kernel_probe/jprobe.c:109-139 | for counts that are not negative the number of words followed is the count `pointer` |
| `Pointers.FollowRanges` | kernel_probe/jprobe.c:118-151 | the holes of a chain are its pointer words and its target, one by one and in order, as ranges of user memory |
| `Pointers.FileRanges` | kernel_probe/jprobe.c:100-157 | the same for the holes of a whole list |
| `Pointers.LocatedSeparate` | kernel_probe/stack_buf.c:88-111 | what the restore loop needs of the holes, said of these ranges: all in the first copy, none overlapping |
| `Pointers.RetriedList` | kernel_probe/jprobe.c:103-116 | a list that stopped at a missing pointer variable stops there again with one level less, and passes it once its count is used up |
| `Pointers.SpentFilesNothing` | kernel_probe/jprobe.c:103-109 | a list whose pointer counts are used up files no hole, in any memory |
| `Pointers.SpentKeeps` | kernel_probe/jprobe.c:67-72 | in such a list the first entry at an address is kept by value with its size, even if it was a pointer |
| `VaultSpec.EncryptFaultsIff` | kernel_probe/jprobe.c:286-365 | an encrypt call faults if and only if the caller has a name, rsp is not above rbp, and there are sixteen frames already or a pointer parameter before the first missing one leaves the copies (or there is one and the copies number more than 32) |
| `Vault.InitSlots` | kernel_probe/jprobe.c:275-284 | sixteen distinct empty slots of capacity 32 |
| `Vault.HideFrame` | kernel_probe/jprobe.c:336-365 | scan and pointer restoration together leave the veiled memory and a slot that keeps the saved copies and the holes |
| `Vault.Module.constructor` | kernel_probe/jprobe.c:43-54 | both stacks start empty and uninitialised |
| `Vault.Module.EncryptStack` | kernel_probe/jprobe.c:275-372 | refines `EncryptSpec`: accepted calls push one frame on both stacks and return 0, faults occur exactly where the specification has them, the 17th nested frame among them; calls without a name (code 0) or with rbp below rsp (code -1) change neither memory nor stacks nor the list |
| `Vault.Module.DecryptStack` | kernel_probe/jprobe.c:374-426 | refines `DecryptSpec`: pops both stacks together, leaves an empty slot and returns 0, or refuses with -1 and without change when no frame is hidden; faults before the first encrypt call and without a name |
| `Runs.StepCases` | kernel_probe/jprobe.c:286-315 | a step pushes the computed frame, pops the top frame, writes one byte, or changes neither memory nor frames |
| `Runs.SegsOfShape` | kernel_probe/jprobe.c:336-362 | the saved copies of a frame lie apart, inside its bounds, hold the original bytes and cover exactly what was not stepped over |
| `Runs.RestoreAt` | kernel_probe/stack_buf.c:88-113 | restoring a decryptable frame brings each hidden byte back and leaves every other byte |
| `Runs.FramesStay` | kernel_probe/jprobe.c:338-419 | frames below the depth a run never leaves are unchanged by the run |
| `Runs.FrameBetween` | kernel_probe/jprobe.c:397-420 | between matching calls the pushed frame stays in place, and it is the one the decrypt call pops |
| `Runs.RoundTrip` | kernel_probe/jprobe.c:336-420 | in every run, each decrypt call sets exactly the bytes hidden by its frame back to their values just before the matching encrypt call; all other bytes, callee writes to kept data included, are left alone |
| `Runs.HiddenBytes` | kernel_probe/jprobe.c:340-365 | every call with a name, a frame, a free slot and no chain that leaves the copies pushes a frame; the bytes it hides are the frame minus what the scan steps over (the by-value parameters, if well placed) minus the chains and targets of the pointer parameters before the first one that is missing |
| `Runs.EncryptHides` | kernel_probe/jprobe.c:347-365 | after an encrypt call hidden bytes read '0' and every other byte has its original value |
| `Runs.DecryptableIff` | kernel_probe/jprobe.c:336-365 | for frames under 2^31 bytes, from the caller's memory and parameters: the frame can be put back if and only if there are at most 32 copies, all exposed pointer words and targets are in the first copy, and each ends before the next one in address order (ties in list order) starts |
| `Runs.DecryptSucceedsIff` | kernel_probe/jprobe.c:396-420 | in every run, decryption of such a frame succeeds if and only if the caller has a name and this condition held at the encrypt call |
| `Runs.SamePointerTwice` | kernel_probe/jprobe.c:121-124 | a list that names one pointer variable twice before its first missing entry, and does not fault, makes the frame impossible to decrypt |
| `Runs.PointerBeyondFirstCopy` | kernel_probe/jprobe.c:124-151 | so does a pointer variable beyond the first saved copy and before the first missing entry, because its hole is filed under the first |
| `Runs.SampleSucceeds` | kernel_probe/jprobe.c:109-151 | a concrete frame with a pointer parameter that is hidden and put back |
| `Runs.AliasedExample` | kernel_probe/jprobe.c:121-137 | a concrete frame that is hidden and then faults on decryption |
| `Runs.MissingExample` | kernel_probe/jprobe.c:111-116 | a concrete list whose first pointer variable is missing: the call succeeds and the chain of the second stays hidden |
| `Runs.FaultExample` | kernel_probe/jprobe.c:128-147 | two concrete calls that fault: a pointer to a pointer whose second word is in no copy, and a target whose end wraps around |
| `Runs.ReusedList` | kernel_probe/jprobe.c:103-139 | a list that an earlier call used up, passed again below depth sixteen, never faults, files no hole and hides the whole frame but what the scan steps over |
| `Runs.LastWriteByIndex` | kernel_probe/jprobe.c:245-426 | the last value the process wrote, by index of the step |
| `Runs.Transparent` | kernel_probe/jprobe.c:245-426 | in every balanced run each byte ends with the last value the process wrote there, as if no vault call had been made, if the process does not write the byte while it is hidden; frames may overlap |
| `Runs.WholeRun` | kernel_probe/jprobe.c:245-426 | the same for the whole memory of a run from no hidden frame to no hidden frame |
| `Runs.OwnFrameOnly` | kernel_probe/jprobe.c:340-365 | each encrypt or decrypt call writes only inside the bounds of its own frame, if all frames keep their copies inside their bounds |
| `Runs.BoundedRun` | kernel_probe/jprobe.c:340-362 | frames keep their copies inside their bounds in every state of every run |
| `Runs.OwnFrameRun` | kernel_probe/jprobe.c:340-420 | in every run from no hidden frame, with overlapping frames and any writes of the process, each call writes only inside the bounds of its own frame |
| `Runs.SealedStep` | kernel_probe/jprobe.c:304-365 | a legal step keeps frames below one another and every hidden byte at '0' |
| `Runs.SealedRun` | kernel_probe/jprobe.c:304-315 | if every new frame lies strictly below the previous one, which is checked but only logged, and the process leaves hidden bytes alone, then in every state all bytes hidden by any live frame read '0' and no byte is hidden twice |
| `Driver.Perform` | kernel_probe/jprobe.c:245-426 | one call of the code, or one write of the process, is one step of the state machine; it fails exactly where the state machine faults |
| `Driver.Execute` | kernel_probe/jprobe.c:245-426 | every run of the code is a trace of the state machine, so the theorems about traces hold of the code |
| `Words.ByteAtShift` | kernel_probe/stack_encrypt.c:27 | byte j of a 64-bit word is the word shifted right by 8j, masked to a byte |
| `Words.XorBytes` | kernel_probe/stack_encrypt.c:27 | xor on a 64-bit word is xor on each byte with the key byte of its position |
| `XorStack.SaveParameters` | kernel_probe/stack_encrypt.c:10-23 | the buffer holds all parameter bytes in list order |
| `XorStack.XorWords` | kernel_probe/stack_encrypt.c:25-28 | exactly the touched range is xored, byte by byte with the key byte of its position |
| `XorStack.RestoreParameters` | kernel_probe/stack_encrypt.c:37-43 | parameter bytes get their saved values, overlapping parameters included; no other byte changes |
| `XorStack.CryptStack` | kernel_probe/stack_encrypt.c:4-93 | both functions xor every byte of `[rsp, rsp + 8 * ((rbp - rsp) / 8 + 1))` outside the parameters with the key byte of its place in its word and change no other byte; the branch for trailing bytes is unreachable |
| `XorStack.TouchedRange` | kernel_probe/stack_encrypt.c:25-35 | the range is a whole number of words, ends after rbp by at most eight bytes, and is empty if rbp is below rsp |
| `XorStack.XorRoundTrip` | kernel_probe/stack_encrypt.c:4-93 | for any parameter list, parameters rewritten in between keep their new bytes and all other bytes return to their originals |
| `XorStack.XorInvolution` | kernel_probe/stack_encrypt.c:4-93 | with nothing rewritten, decryption undoes encryption |
| `Memset.SpreadBytes` | test/kernel_module_memset.c:29-34 | the shift-or steps put the byte in all eight positions of the word |
| `Memset.FillWord` | test/kernel_module_memset.c:49-66 | each word store is aligned and extends the filled range by eight bytes |
| `Memset.FillToAligned` | test/kernel_module_memset.c:38-43 | stops at the next multiple of 8 without underflow of the length |
| `Memset.FillBlocks` | test/kernel_module_memset.c:46-59 | writes eight aligned words a round |
| `Memset.FillWords` | test/kernel_module_memset.c:63-69 | writes one aligned word a round |
| `Memset.FillTail` | test/kernel_module_memset.c:74-79 | writes the last bytes |
| `Memset.GlibcMemset` | test/kernel_module_memset.c:20-82 | for every address, length and `c` every byte of `[dst, dst + len)` gets a value that differs from `c` by a multiple of 256, `c` itself if it is a byte, and no other byte changes; for length at least 8 there are exactly (len - lead) / 8 word stores and at most 14 byte stores |
| `HashKeys.StrcmpZero` | clear_stack/hash.c:68-74 | comparison is 0 exactly for equal keys |
| `HashKeys.StrcmpTrans` | clear_stack/hash.c:68 | comparison is transitive |
| `HashKeys.StrcmpOrder` | clear_stack/hash.c:68 | comparison is the dictionary order of unsigned characters |
| `HashKeys.HtHash` | clear_stack/hash.c:8-19 | computes the loop's value modulo the size; for ASCII keys that is (start * 256^n + the base-256 value of the key) modulo 2^64, for the start ULONG_MAX the start itself |
| `HashKeys.AsciiHash` | clear_stack/hash.c:13-18 | this closed form for the loop |
| `HashKeys.HashStops` | clear_stack/hash.c:13-17 | for any key the loop consumes the characters up to the first prefix whose value is ULONG_MAX, or all of them |
| `HashKeys.AsciiConsumesAll` | clear_stack/hash.c:13-17 | for ASCII keys and a start other than ULONG_MAX the whole key is consumed |
| `HashKeys.LongKeyHash` | clear_stack/hash.c:8-19 | for ASCII keys of at least eight characters the value is that of the last eight characters modulo 2^64 |
| `HashKeys.LongKeyBin` | clear_stack/hash.c:8-19 | two such keys with the same last eight characters share a bucket, whatever the two starting values |
| `HashTable.HtCreate` | clear_stack/hash.c:40-56 | NULL for a size below one, else an empty table |
| `HashTable.Walk` | clear_stack/hash.c:65-71 | stops at the key's place in the sorted chain, and the key is present if and only if it is there |
| `HashTable.PositionDecides` | clear_stack/hash.c:102-108 | stopping early misses nothing |
| `HashTable.Replace` | clear_stack/hash.c:74-77 | changes the value of one key and nothing else in the chain |
| `HashTable.Link` | clear_stack/hash.c:82-92 | all three cases insert the pair at its place in the list |
| `HashTable.InsertPair` | clear_stack/hash.c:78-92 | the chain stays strictly sorted and stores the extended map |
| `HashTable.Table.HtSet` | clear_stack/hash.c:59-94 | the key's bin maps it to the value; all other keys and bins are as before; every chain stays sorted |
| `HashTable.Table.HtGet` | clear_stack/hash.c:96-109 | the value stored for the key in its bin, or NULL |
| `HashTable.GetIsLastInBin` | clear_stack/hash.c:59-109 | after any calls with any starting values a lookup answers the last value set for the key in the bin it looks at |
| `HashTable.LastInByIndex` | clear_stack/hash.c:59-94 | which call that is, by index |
| `HashTable.LastByIndex` | clear_stack/hash.c:59-94 | the last value set for a key, by index of the call |
| `HashTable.NeverSet` | clear_stack/hash.c:96-109 | the value of a key that was never set is NULL |
| `HashTable.RefinesMap` | clear_stack/hash.c:59-109 | if the last call for the key hit the bin that the lookup looks at, the answer is the last value set or NULL, for any sequence of calls |
| `HashTable.RefinesMapIff` | clear_stack/hash.c:59-109 | for pairwise different values, the answer is the last value set or NULL if and only if the last call for the key hit that bin |
| `HashTable.Replay` | clear_stack/hash.c:40-94 | a new table driven through any sequence of calls ends with the bins the sequence prescribes |
| `HashTable.OwnBin` | clear_stack/hash.c:61-65 | with a fixed starting value every stored key is in its own bin |
| `HashTable.FixedSeed` | clear_stack/hash.c:59-109 | a fixed starting value makes the table a map |
| `HashTable.LongKeysAnySeed` | clear_stack/hash.c:8-109 | ASCII keys of at least eight characters behave as in a map for any starting values but ULONG_MAX |
| `HashTable.ShortKeyLost` | clear_stack/hash.c:11-18 | a concrete short key that is set and then not found |
| `Mapper.Table.constructor` | kernel_probe/mapper.c:7-18 | an empty table of the given capacity |
| `Mapper.Table.Grow` | kernel_probe/mapper.c:27-56 | doubles the capacity and keeps all entries in order |
| `Mapper.Table.InsertMapper` | kernel_probe/mapper.c:20-73 | appends one entry, or changes nothing when the allocator refuses; the capacity stays the initial one times a power of two, and fewer than two entries were recopied per entry stored |
| `Mapper.Table.GetFuncName` | kernel_probe/mapper.c:88-103 | the name of the first entry whose range contains the address, or NULL |
| `Elf.ElfOpen` | kernel_probe/parse_elf.c:41-87 | short or wrongly marked files are refused; it faults if and only if a header it reads is outside the image; otherwise the last static symbol table and its string table are found, or that there is none |
| `Elf.Magic` | kernel_probe/parse_elf.c:41-62 | a file is accepted if and only if it has 64 bytes and starts with 127 and the letters E, L, F |
| `Elf.FileHeaderReadsBack` | kernel_probe/parse_elf.c:72-73 | the section count and the place of each section header are those written in the file header, laid out field by field |
| `Elf.SectionReadsBack` | kernel_probe/parse_elf.c:74-77 | type, offset, size and link of a section are read as they were written; it is a static symbol table if and only if its type is 2 |
| `Elf.ObjectReadsBack` | kernel_probe/parse_elf.c:75-77 | the bounds of the symbol table and the start of its string table are those written in the two section headers |
| `Elf.SymbolReadsBack` | kernel_probe/parse_elf.c:100-121 | name, value and size of a symbol are read as they were written, the name from the string table |
| `Elf.StructSizes` | kernel_probe/parse_elf.c:41-73 | the sizes of the three structures are the sums of their fields |
| `Elf.CopyName` | kernel_probe/mapper.c:61-64 | the name is exactly the bytes of the image from its start up to the first zero, and the copy runs out of the image if and only if there is none |
| `Elf.OffsetsShape` | kernel_probe/parse_elf.c:144-151 | the loop visits consecutive entries, the first one always; for a table of whole entries exactly its entries |
| `Elf.Parse` | kernel_probe/parse_elf.c:203-225 | appends exactly the visited symbols of non-zero size, in table order, up to the first one that lies outside the image (a fault) or whose insertion the allocator refuses |
| `Elf.LookupInTable` | kernel_probe/mapper.c:88-103 | skipping empty symbols does not change which symbol is found first, for any symbols |
| `Elf.MatchesExactly` | kernel_probe/mapper.c:96 | the wrapped range test accepts exactly the addresses of ranges that end below 2^64 |
| `Elf.TopSymbolMissed` | kernel_probe/mapper.c:96 | a concrete symbol at the end of the address space that is found for no address |
| `Elf.FunctionAt` | kernel_probe/jprobe.c:275-286 | for every image: NULL if it is not an ELF file, a fault if and only if there is no static symbol table that can be read, else the name, byte for byte as in the string table, of the first entry of non-zero size that contains the address, or NULL, however often the table grew |
| `StackAreas.GetStackAreas` | clear_stack/stack_encrypt_server.c:114-152 | emits exactly the areas of the split, leaves the sentinel in unused slots, and overruns if and only if there are more than ten |
| `StackAreas.SplitTranslates` | clear_stack/stack_encrypt_server.c:130-149 | with distinct neighbouring frames the areas tile the range in order, each inside its page, every byte at its physical address |
| `StackAreas.SplitMisses` | clear_stack/stack_encrypt_server.c:130-149 | a page border that the frame numbers do not show gives the byte behind it a wrong address |
| `StackAreas.SharedFrameExample` | clear_stack/stack_encrypt_server.c:130-149 | two concrete pages in one frame, merged into one area with a wrong address |
| `StackAreas.TwoFramesExample` | clear_stack/stack_encrypt_server.c:130-149 | a concrete range over two pages and its two areas |
| `StackAreas.SplitCorrectIff` | clear_stack/stack_encrypt_server.c:114-152 | the areas are the translation of the range if and only if no two neighbouring pages share a frame |
| `StackAreas.SplitLength` | clear_stack/stack_encrypt_server.c:130-149 | lengths add up to bottom - top, and to 1 for an empty range |
| `StackAreas.SplitCount` | clear_stack/stack_encrypt_server.c:120-149 | there are never more areas than pages, so ten pages always fit |
| `CallGraph.JustifyNext` | parser.py:73-75 | the node after a sensitive node on a path to a listed node is a direct callee and reaches an initially listed node |
| `CallGraph.GrownUnique` | parser.py:67-76 | for one source, listing the node missing at the first gap (in the order of targets, paths and nodes) until there is no gap has exactly one result, order included |
| `CallGraph.MarkPath` | parser.py:70-76 | adds, one at a time, the node missing at the first gap, and leaves none on the path |
| `CallGraph.MarkTarget` | parser.py:68-76 | the same for all paths to one target |
| `CallGraph.MarkSource` | parser.py:67-76 | terminates although the list grows while it is iterated; the same for all targets, those added on the way included |
| `CallGraph.GrownSound` | parser.py:73-75 | every id added this way is a direct callee of a sensitive function and reaches an initially listed one |
| `CallGraph.MarkingUnique` | parser.py:66-76 | source after source, this determines the whole list |
| `CallGraph.MarkUntrusted` | parser.py:66-76 | ends with that list: no id is added twice; every added id stands directly after a sensitive node on a yielded path from a sensitive function to an id listed before it, is a direct callee of a sensitive function and reaches an initially listed one; every node directly after a sensitive node on a simple path from a sensitive to an initially listed function ends up listed |

## Left out

- Probe registration, the file-write probes, logging and `jprobe_return` in kernel_probe/jprobe.c: kernel plumbing.
- How rsp, rbp and the instruction pointer are read from registers and the kernel stack: they are inputs.
- File, `/proc`, `/dev/mem` and socket access: kernel_probe/file_ops.c, kernel_probe/readmem.c and the request loop of clear_stack/stack_encrypt_server.c.
- llvm/Hello.cpp, parse_elf/elf.c, kernel_probe/jprobe.c.bkp, clear_stack/stack_clear.c and the test drivers: thin glue, duplicates or older versions.
- Freeing of memory and failed allocations, except that a refused table growth changes nothing.
- Concurrent calls: the module's globals are used by one process at a time.
- StackBufs.ListSort: stands for `list_sort` by its result, the stable sort; for copies of 2^31 bytes or more, where the comparator is not an order, the kernel's merge sort may give another permutation.
- Elf.ElfOpen: a header counts as outside the image when any of its 64 bytes is; the dynamic symbol table, which `parse` does not use, is not read.
- Elf.FunctionAt: every allocation is granted; `Elf.Parse` has the refused ones.
- CallGraph.MarkUntrusted: starts from the two id lists; reading names and labels from files is not modelled.
