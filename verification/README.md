# Os99 boot chain: a verified model

Os99 boots a PC from the network in real mode. This project models the parts of that chain in which
memory is the problem, over byte arrays that are changed in place, with 16- and 32-bit arithmetic that
wraps where the registers wrap.

* **Boot image** (`relocation.dfy`, `relocation_compose.dfy`, `boot_image.dfy`). The builder relocates an MZ
  program inside its file buffer, shifts its stack and entry pointers, stores them in the boot stub and emits
  stub and image. The model has no precondition on the file or the stub: an access outside them is an outcome
  of its own. The theorems say what the relocation loop computes, exactly when the table's order is
  irrelevant, when two passes over a table are one and when the second undoes the first, for which files the
  loop is the relocation by the original table, and that the boot file loaded at 0000:7C00 is the MZ program
  loaded at the load segment by a reference loader that works through segment:offset addresses.
* **Flat memory** (`flat_memory.dfy`). The overlap-safe copy and the fills, as the string instructions that
  step ESI, EDI and ECX through 4 GiB. The copy is a move exactly under a condition on the two addresses
  and the count; ranges that do not wrap always meet it.
* **Download** (`pxe.dfy`, `download.dfy`, `download_proofs.dfy`, `download_session.dfy`). The lock-step TFTP
  client with its static buffer, and the firmware's own file transfer, against a firmware that replies
  anything. Replies are a finite sequence, and a run may still be waiting at its end, so every theorem is
  about every prefix of every run. The loop copies packets through the verified copy, and both ways of
  downloading leave the same memory.
* **Fake DOS** (`real_mode.dfy`, `dos_frame.dfy`, `dispatch_table.dfy`, `fake_dos.dfy`). INT 21h from the
  caller's registers through the vector, the pushed frame, the table and the handlers back to the caller. The
  stack pointer may wrap anywhere in its segment, and address line 20 may be masked or not.
* **Address line 20** (`a20.dfy`). The probe over a memory in which the two probed words may be one.
* **The stub's run** (`boot_run.dfy`). From the boot file in memory to the program's first instruction: what
  the initialisations change misses the program and its two pointers.
* **Memory map and main program** (`memory_map.dfy`, `boot_loader.dfy`). The bounded collection of the BIOS
  map, the first fit, the one download, and how the main program ends.
* **Descriptors** (`descriptor.dfy`). The segment descriptor calculator against the processor's decoding.

Each method is proved equal to a specification function, or its contract states the new state outright; the
lemmas are about those functions. `words.dfy` holds bytes and words.

Some statements found in the code or its comments do not hold of the code; the model follows the code:

* `a20line.asi` line 16 says the probe yields 5555h when the line is masked. It yields AAAAh, because the
  second write is the one that survives. It is not zero either way.
* The builder's `main.cpp` line 155 is meant to reject sites outside the image, but a subspan of two bytes is
  never empty (`PreparedExactly`; `OutsideUndefined` shows such a file). Lines 140-141 bound the table by its
  number of entries, not of bytes: `OverrunAcceptedExactly` says which tables that leave the header are
  accepted, `OverrunPrepared` shows one that is relocated, and `BeyondFileUndefined` what becomes of one that
  leaves the file.
* The builder stores the two pointers in a stub of any size (`Build`).
* `pxe.cpp` line 271 compares a status with itself, so a failing size query is reported as an empty file and
  its status is lost (`EmptyExactly`, `QueryStatusLost`).
* Opening a connection reports success without being attempted when the cached packet is missing
  (`OpenedExactly`).
* The loop's total is a 32-bit sum that may wrap; `EndsExactly` says exactly when the loop must end.
* DOS function 40 with CX = 0 writes 65536 bytes (`WriteExactly`); the invalid-handle path of function 44 never
  returns error code 6 (`DeviceInfoExactly`); function 4A never leaves the caller's ES (`ResizeExactly`).
* The chosen region is 64 bits wide and the download's buffer 32: it may lie outside the region, or not hold
  the image (`RegionNarrowing`, `BufferSoundExactly`, `NarrowingFails`).
* The main program keeps 16 bits of a 32-bit error and so reports success for errors without a code
  (`SilentFailureExactly`).
* The dword fill stores words and fills half of its range, unless it runs around all of memory
  (`DwordFillExactly`).
* A descriptor base from 2^24 up spoils the limit (`DecodesExactly`).

## Model

| member | source | states |
|---|---|---|
| Relocation.ClosedForm | os99/bootwat/source/main.cpp:151-164 | without one-byte overlaps every site's word grows by the load segment once per entry that names it, modulo 2^16, and no other byte changes |
| Relocation.OrderIndependence | os99/bootwat/source/main.cpp:151-164 | all orders of the table relocate all images alike exactly when no two sites overlap by one byte or the load segment is a multiple of 256 |
| RelocationCompose.Compose | os99/bootwat/source/main.cpp:151-164 | relocating by one base and then another is relocating once by their 16-bit sum whenever, of two overlapping sites, the higher one cannot carry when it is met: for any table, sites listed twice included |
| RelocationCompose.ComposeExactly | os99/bootwat/source/main.cpp:151-164 | unless a site that overlaps another is listed twice, two passes are one for all images exactly when in every pair of overlapping entries the higher site's base has a zero low byte in the pass that decides, the first if it is listed later and the second if earlier, or a base is zero |
| RelocationCompose.RepeatedSiteComposes | os99/bootwat/source/main.cpp:151-164 | a table that lists an overlapping site twice and composes although two of its entries do not commute |
| Relocation.UndoInReverse | os99/bootwat/source/main.cpp:151-164 | any table, overlapping or not, is undone by the complement in reverse table order, so relocation loses no information |
| Relocation.UndoInOrder | os99/bootwat/source/main.cpp:151-164 | where the order is irrelevant the complement restores the image in the same table order |
| RelocationCompose.UndoInOrderExactly | os99/bootwat/source/main.cpp:151-164 | unless a site that overlaps another is listed twice, the same-order undo restores every image exactly when no two sites overlap by one byte or the load segment is a multiple of 256 |
| Relocation.UndoReadsBackwards | os99/bootwat/source/main.cpp:151-164 | for any table at all the same-order undo restores every image exactly when reading the table backwards makes no difference |
| BootImage.RelocateInPlace | os99/bootwat/source/main.cpp:145-164 | the in-place loop, reading entries from the live buffer, yields the buffer of the table specification or reports the first access outside it |
| BootImage.ProgramData.PrepareExec | os99/bootwat/source/main.cpp:126-169 | for every file: which of the two errors is thrown, or that an access leaves the buffer, or the relocated buffer, image start and shifted pointers |
| BootImage.PointersByField | os99/bootwat/source/main.cpp:165-168 | the stack and entry of every prepared program are the fields initial_sp, initial_ip and initial_ss, initial_cs plus the load segment, read as the header is declared |
| BootImage.ChecksByField | os99/bootwat/source/main.cpp:137-154 | which header fields the checks compare, and the byte of the file that every table entry names, from the declared fields |
| BootImage.WellFormedPrepared | os99/bootwat/source/main.cpp:126-169 | a file whose table lies in its header and whose sites lie in its image is prepared: the image is relocated by its original table, the header stays |
| BootImage.PreparedExactly | os99/bootwat/source/main.cpp:137-168 | an accepted file with its table inside the file and no site over a later entry is prepared exactly when all sites are in the file, and then all of it is relocated by its original table, header fields included; a site outside is never rejected |
| BootImage.PreparedInHeader | os99/bootwat/source/main.cpp:151-158 | with the table in the header, preparation completes exactly when all sites are in the image |
| BootImage.OverrunAcceptedExactly | os99/bootwat/source/main.cpp:140-144 | which files the checks reject, and exactly which tables that leave their header they accept |
| BootImage.BeyondFileUndefined | os99/bootwat/source/main.cpp:145-154 | an accepted file whose header or table ends beyond it always leads outside the buffer |
| BootImage.OverrunPrepared | os99/bootwat/source/main.cpp:140-151 | a file whose table runs into its image is prepared |
| BootImage.OutsideUndefined | os99/bootwat/source/main.cpp:151-158 | a file with its table in the header and a site outside is not rejected |
| BootImage.PrepareStub | os99/bootwat/source/main.cpp:171-176 | the stub holds the stack pointer at offset 2 and the entry pointer at offset 6 and is otherwise unchanged |
| BootImage.Build | os99/bootwat/source/main.cpp:204-214 | the output is the patched stub followed by the image, and for a well-formed file the boot file of the reference description; a stub below ten bytes is written past |
| BootImage.ImageAtLoadBase | os99/bootwat/source/main.cpp:208-209 | the image follows the stub at the load segment exactly when the stub is whole paragraphs and the segment fits 16 bits |
| BootImage.RelocatePlaced | os99/bootwat/source/main.cpp:151-164 | relocating an image where it lies in memory is placing the relocated image, overlapping sites included |
| BootImage.BootFileLoads | os99/bootwat/source/main.cpp:204-214 | the boot file at 0000:7C00 leaves the memory of the stub plus the MZ program loaded at the load segment, and the stub's two far pointers read back as the program's stack and entry, shifted |
| BootImage.PatchedStubPointers | os99/bootwat/asm/bootwat.asm:7-10 | the pointers at the stub's stack and entry labels are the ones stored |
| BootImage.BootPointersByField | os99/bootwat/source/main.cpp:165-176 | the words at 7C02h to 7C08h of the loaded boot file are the program's initial_sp, initial_ss, initial_ip and initial_cs, the segments shifted by the load segment |
| BootImage.RelocatedPointer | os99/bootwat/source/main.cpp:151-164 | after booting, a far pointer relocated once names the byte 16 times the load segment above its target exactly when its segment does not wrap |
| BootRun.Start | os99/bootwat/asm/main.asi:10-23 | from the loaded boot file: the stub halts exactly if line 20 was masked and port 92h was set already or its write does not unmask; else the pointers it loads are the header's fields, segments plus 7C0h and the stub's paragraphs, the image is as the reference loader leaves it, and the fake DOS is in place |
| BootRun.SetUpMachine | os99/bootwat/asm/main.asi:16-18 | both initialisations on the stub's stack change nothing but the tables, the memory-top word and fourteen bytes of stack; when they halt |
| RealMode.FarPointerMoves | os99/bootwat/source/main.cpp:165-168 | shifting a far pointer's segment moves it by that many paragraphs exactly when the segment sum does not wrap |
| RealMode.LinearRoundTrip | os99/boot-pxe/source/x86/flatmem.h:20-33 | a linear address survives the trip through a far pointer exactly below 1 MiB |
| RealMode.NormalForm | os99/boot-pxe/source/x86/flatmem.h:20-33 | normal forms have offsets below 16, name the same byte exactly below 1 MiB, and are equal exactly when the linear addresses agree modulo 1 MiB |
| FlatMemory.FlatCopy | os99/boot-pxe/source/x86/flatmem.cpp:75-114 | for all arguments the copy leaves what the string instruction leaves from the chosen direction and start registers |
| FlatMemory.CopyIsMoveExactly | os99/boot-pxe/source/x86/flatmem.cpp:86-107 | the copy moves all memories' bytes correctly, overlapping or wrapping, exactly when the distance of the addresses plus the count is at most 2^32 |
| FlatMemory.CopyIsMemmove | os99/boot-pxe/source/x86/flatmem.cpp:86-107 | for ranges that do not wrap the target holds the old source bytes and all other memory is unchanged |
| FlatMemory.FlatFill | os99/boot-pxe/source/x86/flatmem.cpp:4-25 | the byte fill leaves what the string instruction leaves |
| FlatMemory.FilledByte | os99/boot-pxe/source/x86/flatmem.cpp:4-25 | exactly the bytes of the range, read around 2^32, hold the value |
| FlatMemory.FlatFillWords | os99/boot-pxe/source/x86/flatmem.cpp:27-48 | the word fill leaves what the string instruction leaves |
| FlatMemory.FilledWord | os99/boot-pxe/source/x86/flatmem.cpp:27-48 | for any count, running over itself included: the range holds the word's low and high bytes in turn and nothing else changes |
| FlatMemory.FillsAgree | os99/boot-pxe/source/x86/flatmem.cpp:4-48 | filling words of two equal bytes is filling twice as many bytes, wherever the range wraps |
| FlatMemory.FlatFillDwords | os99/boot-pxe/source/x86/flatmem.cpp:50-71 | the dword fill is a word fill with the low word and the same count |
| FlatMemory.DwordFillExactly | os99/boot-pxe/source/x86/flatmem.cpp:50-71 | for any count it fills dwords as named exactly when the count is zero, or when its words fill all of memory and the value's two words are equal |
| Pxe.Client.Call | os99/boot-pxe/source/pxe/pxe.cpp:211-232 | the firmware is called only with a cached packet; without one the status is that of asking for it |
| Pxe.Client.QuerySize | os99/boot-pxe/source/pxe/pxe.cpp:160-178 | the size is set only when the firmware gives one; status and calls |
| Pxe.Client.Download | os99/boot-pxe/source/pxe/pxe.cpp:180-209 | the one-shot download's call, status and size |
| Pxe.SuccessWithoutCall | os99/boot-pxe/source/pxe/pxe.cpp:189-192 | success is reported without a call exactly when the cached packet is missing although asking for it succeeded |
| Download.Downloader.TftpRead | os99/boot-pxe/source/pxe/pxe.cpp:241-256 | the firmware stores the packet in the buffer; number and length are set only on success |
| Download.Downloader.ReadWhole | os99/boot-pxe/source/pxe/pxe.cpp:180-209 | the firmware's own transfer: call, status, size, and the target filled with as much of the file as fits, around the address space |
| Download.Downloader.ReadPackets | os99/boot-pxe/source/pxe/pxe.cpp:279-307 | for any replies the loop's verdict, total, memory and calls are those of the loop specification; the copy enters through its own contract |
| Download.Downloader.DownloadWithStatus | os99/boot-pxe/source/pxe/pxe.cpp:258-314 | for any arguments and replies the outcome, reported size, memory and calls of the whole function, with and without an update function |
| DownloadProofs.FilledExactly | os99/boot-pxe/source/pxe/pxe.cpp:288-307 | the loop completes exactly when some packets numbered 1, 2, ... modulo 2^16, not empty, within the target and not vetoed, reach the hint; the total is the sum of their sizes, between hint and target size |
| DownloadProofs.AcceptedExactly | os99/boot-pxe/source/pxe/pxe.cpp:288-306 | a packet is accepted exactly when it is read, has the next number modulo 2^16, is not empty, fits the target and is not vetoed; the status of each refusal |
| DownloadProofs.LoopHead | os99/boot-pxe/source/pxe/pxe.cpp:279-307 | at every loop head the target holds exactly the accepted packets' contents in a row, and only target and buffer have changed |
| DownloadProofs.LoopMemory | os99/boot-pxe/source/pxe/pxe.cpp:288-307 | however the loop ends, the target holds exactly the stored packets' contents; a refused packet has no byte in the target |
| DownloadSession.SuccessExactly | os99/boot-pxe/source/pxe/pxe.cpp:266-313 | a run succeeds exactly when the hint is usable, open and close succeed and accepted packets reach the hint; the size reported is their sum |
| DownloadSession.OutcomeExactly | os99/boot-pxe/source/pxe/pxe.cpp:258-314 | the status and size of every run: of the first thing to go wrong among size, opening, packets and closing, or success; and without an update function the firmware's |
| DownloadSession.Session | os99/boot-pxe/source/pxe/pxe.cpp:266-313 | the calls of a run in order: queries, open, alternating reads and updates with at most hint many reads, and one close, last, exactly when the loop completed |
| DownloadSession.OpenedExactly | os99/boot-pxe/source/pxe/pxe.cpp:217-219 | the connection is asked for exactly with a cached packet; reads without it happen exactly when the packet is missing but its status is success |
| DownloadSession.EmptyExactly | os99/boot-pxe/source/pxe/pxe.cpp:269-276 | without a hint a run ends as for an empty file, with the query's calls only, exactly when the query is not answered or answers zero; so ends every query whose status is not success |
| DownloadSession.QueryStatusLost | os99/boot-pxe/source/pxe/pxe.cpp:270-274 | size queries that fail with different statuses end in the same run, and the status reported is neither |
| DownloadSession.WholeFile | os99/boot-pxe/source/pxe/pxe.cpp:194-208 | without an update function the target holds as much of the file as fits and no other byte changes; without a cached packet nothing does |
| DownloadSession.BothWaysAgree | os99/boot-pxe/source/pxe/pxe.cpp:258-314 | packets that complete the loop and a transfer of the same contents leave the same memory, the static buffer apart |
| DownloadSession.RoundsAlternate | os99/boot-pxe/source/pxe/pxe.cpp:288-306 | each stored packet is one read and one update, and the reported totals strictly increase within the target size |
| DownloadSession.EndsExactly | os99/boot-pxe/source/pxe/pxe.cpp:288-307 | the loop always ends within hint many replies exactly when no packet can carry the 32-bit total past 2^32 |
| DosFrame.EntryFrame | os99/bootwat/asm/fakedos.asi:199-206 | the pushes leave the caller's registers in the C structure by name and in every assembler slot by name, wherever SP wraps |
| DosFrame.SlotsAreFields | os99/boot-pxe/source/x86/intr.h:8-41 | the assembler's slot offsets name the fields of the C structure |
| DosFrame.EntryExitInverse | os99/bootwat/asm/fakedos.asi:199-230 | around any handler each register but SP comes back from its slot, SP is balanced, and untouched slots restore the caller's registers |
| FakeDos.Machine.Enter | os99/bootwat/asm/fakedos.asi:199-220 | through the vector: memory after the sixteen pushes, BP at the frame, DX:AX pointing to it, SI four times the function number |
| FakeDos.Machine.Leave | os99/bootwat/asm/fakedos.asi:224-230 | every register but SP is its frame slot's value and SP is back where the caller had it |
| FakeDos.Machine.Int21 | os99/bootwat/asm/fakedos.asi:199-230 | from call to return: numbers from 80h end with their message, all others reach their own handler, registers, console and serial line are those of the service, and only the 36 bytes below SP change |
| FakeDos.Machine.Dispatch | os99/bootwat/asm/fakedos.asi:215-222 | the far call reads its target at SI, the handler it names runs, and the far return pops the address that was pushed |
| FakeDos.Machine.Handle | os99/bootwat/asm/fakedos.asi:45-51 | at every handler's address the frame and text are those of its function |
| FakeDos.Machine.Halt | os99/bootwat/asm/main.asi:26-44 | the message of an error code, and the reset |
| FakeDos.Machine.Teletype | os99/bootwat/asm/fakedos.asi:74-82 | function 02 on the frame |
| FakeDos.Machine.WriteDevice | os99/bootwat/asm/fakedos.asi:88-110 | function 40 on the frame, the console and the serial line |
| FakeDos.Machine.DeviceInfo | os99/bootwat/asm/fakedos.asi:116-137 | function 44 on the frame, or the halt |
| FakeDos.Machine.Resize | os99/bootwat/asm/fakedos.asi:143-157 | function 4A on the frame, through its successive overwrites of the slots |
| FakeDos.Machine.GetVersion | os99/bootwat/asm/fakedos.asi:163-173 | function 30 on the frame |
| FakeDos.Machine.LeadBytes | os99/bootwat/asm/fakedos.asi:179-185 | function 63 on the frame |
| FakeDos.ServicesPreserve | os99/bootwat/asm/fakedos.asi:74-230 | after any interrupt the caller has its CX, DI, BP, SP, SS, FS, GS, CS, IP and all flags but the carry back, and BX, DX, SI, DS, ES but for the stated functions |
| FakeDos.ServedExactly | os99/bootwat/asm/fakedos.asi:45-51 | exactly which function numbers return, end with a message and which, or stop silently |
| FakeDos.RegisteredHandler | os99/boot-pxe/source/x86/intr.h:51-59 | after any registrations an interrupt finds the last handler registered for its function, or the original one, at its entry, and the caller's registers in the frame; whatever memory that handler leaves, registers come back from their slots |
| FakeDos.WriteExactly | os99/bootwat/asm/fakedos.asi:92-106 | with a buffer clear of the 36 bytes below SP the text is the caller's own bytes, with 16-bit offset wrap, CX of them exactly when CX is not zero; only AX and the carry change |
| FakeDos.ResizeExactly | os99/bootwat/asm/fakedos.asi:143-157 | for the caller: success exactly for the PSP's block and a size up to the memory-top word, which is reported in BX; error 9 exactly for another block, 8 exactly for too large a size; ES is never what it was |
| FakeDos.DeviceInfoExactly | os99/bootwat/asm/fakedos.asi:116-137 | for the caller: 81h for handle 0 and 82h for 1 and 2 in AX and DX; any other handle changes the carry alone and never yields error code 6; other subfunctions end with their message |
| FakeDos.OtherServicesExactly | os99/bootwat/asm/fakedos.asi:74-185 | for the caller of functions 02, 30, 63 and of 40 on other handles: the values returned, the text, and that nothing else changes but the carry |
| DispatchTable.DosInit | os99/bootwat/asm/fakedos.asi:20-69 | all 128 entries, the vectors and the memory-top word hold what they should and no other byte of memory has changed |
| DispatchTable.Installed | os99/bootwat/asm/fakedos.asi:20-69 | word by word: the seven functions and all others of the table at 7A00h, vectors 20h to 2Fh, 3 and 0FFh |
| DispatchTable.FillTable | os99/bootwat/asm/fakedos.asi:34-51 | after the fill and the seven patches every function below 80h leads to its handler or to the not-implemented one |
| DispatchTable.SetDosCallback | os99/boot-pxe/source/x86/intr.h:51-59 | one entry of the table that vector 0FFh points to, wherever that is, is overwritten; numbers from 80h are rejected |
| DispatchTable.PublishedCallback | os99/boot-pxe/source/x86/intr.h:51-59 | with the table published that entry is the function's own in the dispatch table |
| DispatchTable.LastRegistrationWins | os99/boot-pxe/source/x86/intr.h:51-59 | after any registrations each entry holds the last handler for its function or what it held before, and all else is unchanged |
| A20.ProbesOverlap | os99/bootwat/asm/a20line.asi:9-16 | the two probed words are one word exactly with line 20 masked |
| A20.Gate.Test | os99/bootwat/asm/a20line.asi:1-22 | AX is zero exactly with line 20 unmasked; FS, GS, SP and all memory but the stack below SP are as before, aliased or not |
| A20.Gate.Enable | os99/bootwat/asm/a20line.asi:24-32 | the port is written only with bit 1 clear, which is then set with bit 0 cleared and all others kept; only that write changes the line, as the machine answers it |
| A20.Gate.Init | os99/bootwat/asm/a20line.asi:34-46 | it halts exactly if the line was masked and the port was set already or the machine does not answer its write; the port's contents, written only with the line masked; SP, FS and GS are restored, and AX where the stack's addresses do not depend on line 20; memory is kept but for the stack below SP |
| MemoryMap.CollectExactly | os99/boot-pxe/source/core/sysinfo.cpp:24-33 | completion with n entries, overflow and failure of the query loop, each exactly from the reply stream; the error is the status of the first failing query, the last one made; at most 32 queries |
| MemoryMap.SystemInfo.AcquireMemoryMap | os99/boot-pxe/source/core/sysinfo.cpp:16-36 | on success the map is exactly the replies in order, on any error it is empty |
| MemoryMap.SystemInfo.LocateExtendedMemory | os99/boot-pxe/source/main.cpp:15-28 | the first entry that is available, from 1 MiB up and large enough, or that there is none |
| BootLoader.Loader.Acquire | os99/boot-pxe/source/core/sysinfo.cpp:68-83 | the error, the map and the calls of acquiring the system information |
| BootLoader.Loader.DownloadImage | os99/boot-pxe/source/main.cpp:30-55 | the error, the calls and the recorded image address and size |
| BootLoader.Loader.Boot | os99/boot-pxe/source/main.cpp:57-73 | how the main program ends, all its calls, and what it records |
| BootLoader.DownloadSafe | os99/boot-pxe/source/main.cpp:36-47 | a download happens only with a completely acquired map, into its first available entry from 1 MiB up that is as large as the image, for a size the firmware gave |
| BootLoader.FitsExactly | os99/boot-pxe/source/main.cpp:15-28 | a region is found exactly when the map has an entry from 1 MiB up, available and as large as the image |
| BootLoader.LowMemorySkipped | os99/boot-pxe/source/main.cpp:21-24 | with the usual two regions the image goes above 1 MiB although the one below has room |
| BootLoader.RegionNarrowing | os99/boot-pxe/source/main.cpp:46-47 | the 32-bit buffer, which wraps, lies in the chosen 64-bit region exactly when its narrowed size is zero or the region starts below 4 GiB and the buffer does not wrap there |
| BootLoader.BufferSoundExactly | os99/boot-pxe/source/main.cpp:46-47 | the buffer lies in a suitable region and holds the image exactly when its narrowed size is at least the image's and does not reach beyond 4 GiB |
| BootLoader.CallsExactly | os99/boot-pxe/source/main.cpp:57-73 | the exact calls of every boot: each only when all before it went well, and after an overflow of the map the size query with no download |
| BootLoader.NarrowingFails | os99/boot-pxe/source/main.cpp:21-23 | suitable regions whose buffers wrap to address zero, lie below the region, or have no bytes |
| BootLoader.HaltsExactly | os99/boot-pxe/source/main.cpp:60-71 | the main program halts exactly for the errors that carry a code |
| BootLoader.HaltCodes | os99/boot-pxe/source/main.cpp:60-71 | the code it halts with is the status of the first service that fails: initialisation, a map query, the cached packet, or the download |
| BootLoader.NarrowedCode | os99/boot-pxe/source/core/error.cpp:31-34 | of the packed 32-bit error the 16 bits that are kept are the code; the category is lost |
| BootLoader.SilentFailureExactly | os99/boot-pxe/source/main.cpp:60-72 | exactly when the main program reports success without an image |
| Descriptor.Calculate | os99/tools/calculator/main.cpp:36-92 | which options raise which error; for any base each access and flag bit is the option it stands for; for bases below 2^24 the base is the request's and the segment ends at the limit up to 1 MiB, then at the end of its page, at 4 GiB at most; it decodes to the request exactly for those bases |
| Descriptor.DecodesExactly | os99/tools/calculator/main.cpp:78-90 | decoding recovers all packed fields exactly when the base lies below 2^24 |
| Descriptor.DecodedFields | os99/tools/calculator/main.cpp:78-90 | for any base: all fields but the base and the limit are recovered, and what becomes of those two |
| Descriptor.LimitBound | os99/tools/calculator/main.cpp:63-74 | the scaled limit reaches the clamped request exactly up to 1 MiB and at most 4095 bytes beyond it above |

## Left out

- Files, paths, arguments and messages of the builder and the calculator; the GDB script, emulator settings and video mode notes.
- Hardware, BIOS services, DHCP and UDP: a service is an arbitrary reply. INT 10h and INT 14h are taken to leave memory and the registers in use alone, a query fills only its entry, a TFTP read only the buffer, and a TFTP file transfer at most the given size of the target.
- The assembly of `BIOS_query_memmap`, whose error path leaves two pushed words on the stack: a query is a status, an entry and a continuation.
- Serial port discovery: the port index is a parameter; the two discovery loops scan different addresses.
- The C structure's byte fields, `flat_copy`'s unsaved ES register, and the live arithmetic flags between INT 21h and IRET.
- `PXE_checksum`, `PXE_init`'s discovery of the firmware and the kernel's screen loop, which would add only easy members.
- The code and data segments are taken to be zero in the stub, and the dispatch table's labels to be distinct addresses behind it.
- Real mode switching (`flatreal.asi`) and the console routines.
- ComposeExactly: for tables that list a site twice that overlaps another, only the sufficient condition of Compose and the condition of UndoReadsBackwards are given; RepeatedSiteComposes shows that the condition is not necessary there.
- PreparedExactly: is about tables whose sites overlap no later entry; what any other table does is stated by RelocateInPlace and PrepareExec as the entries are read.
- Machine.Int21: is about the table as initialised and a stack clear of it; RegisteredHandler says what an interrupt does up to a registered handler and after it. The words that `serwrite`, `putstr` and BIOS calls push for a moment below the handler's stack pointer are not modelled, nor is memory after a reset; messages are taken as assembled into the stub.
- BootRun.Start: leaves out the screen, serial and flat mode initialisations between the modelled calls, and the BIOS calls' own stack.
- SetDosCallback: leaves its result open on acceptance, because the program returns no value there.
- Gate.Enable: whether the port write unmasks line 20 is the machine's answer, an arbitrary parameter.
- Gate.Init: promises AX only where the stack's addresses do not depend on line 20, as in every segment up to F000h; another stack is read elsewhere once the line is unmasked. The stub's segment is 50h.
- Downloader.ReadPackets: may end waiting, because replies are finite; EndsExactly says when it cannot.
