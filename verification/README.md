# Verification of the OpenSSD firmware

A Dafny model of the firmware for the Jasmine OpenSSD board, of its emulator and of its installer, with proofs.
`dafny verify dfyconfig.toml` checks everything.

| files | what they model |
|---|---|
| `FlashMemory`, `FlashCommands`, `FlashCalls` | NAND banks and DRAM; the flash controller's commands as sequences of small units of work; the `nand_*` calls and their meaning for whole pages |
| `FlashEngine`, `FlashRuns` | the asynchronous hardware: a one-command Waiting Room in front of banks that proceed in any interleaving; whole runs of it |
| `FlashDriver` | the firmware's FCP registers, `flash_issue_cmd`, `flash_finish` and the `nand_*` calls, as a class |
| `DriverRuns` | the commands that the driver issues, as parts of the runs of `FlashCopybacks`, `HostReads` and `HostWrites` |
| `FlashApart`, `FlashCopybacks` | banks that use separate parts of DRAM; any number of modified copybacks in flight on any of the banks |
| `Emulator`, `EmulatorRefined`, `DriverRefined` | the emulator's synchronous `nand_*` calls over a backing file, and the proofs that the hardware, and the driver on it, refine them |
| `ReadRing`, `SataBuffers`, `HostReads`, `HostWrites`, `DramLayout` | the rings of SATA buffers; pages on their way from flash to the host, and from the host to flash; the partition of the DRAM |
| `WordBits`, `EccDram` | DRAM with parity words, accessed by byte, halfword, word and bit |
| `SataCommand`, `SataProtocol`, `SataFirmware`, `ChsGeometry` | host commands: decoding, range check, event queue, deferred start, the main loop, CHS geometry |
| `BadBlocks`, `Installer` | selection of usable blocks at start-up; bad-block lists and erase masks of the installer |
| `Uart`, `Checksums` | the decimal printer, the IDENTIFY integrity word, the signature of the factory frame |
| `Common`, `Division` | 32-bit wrap-around, division by symbolic constants |

Conventions. `UINT32` is the subset type `u32`; every wrap-around is written out with `Wrap32`. Sizes (banks, blocks, pages,
sectors, DRAM) are symbolic and come with stated relations; the shipped values are used in `ShippedLayouts`,
`ShippedEmulatorFits`, `HeaderOptions` and `LargeOptionShares` only. A page is a map from offsets to programmed bytes; programming
overwrites, as it does in the emulator. Hardware that the firmware polls may take any number of steps between two firmware
actions, and takes a step each time it is polled while it can.

Where the code does less than its comments or tests suggest, the model follows the code:

* The four-command modified copyback makes the intended page exactly when the byte count is a multiple of the sector size
  (`FourCommandExact`). Otherwise the first byte of the tail overwrites a new byte and the last byte of the page is not written.
* Halfword accesses are right exactly when they do not start at the last byte of a word (`HalfwordsExact`).
* `_mem_set_dram` and the emulator's version of it agree exactly when all four bytes of the pattern are the same (`FillsAgree`).
* A host command is served as it was sent exactly if it is plain (`Plain`; `ObeyedExactly`, `ServedExactly`, `JudgedExactly`):
  the firmware keeps 32 bits of a 48-bit address (`AddressKept`), so that a write to address 2^32 overwrites sector 0
  (`HighAddressLost`); it knows no CHS geometry (`TrackKept`), so that a write to any other track goes to the first one
  (`CylinderLost`); and its range check wraps around 32 bits (`WrapExact`), so that a 48-bit write at address 0xFFFF_FFFF is
  accepted and reaches the FTL as a trim, and CHS sector 0 is accepted (`WrappedWriteTrims`, `SectorZeroAccepted`). A trim of no
  ranges reaches the FTL as 65536 (`EmptyTrimGrows`). No command is rejected wrongly.
* The command class table gives INITIALIZE DEVICE PARAMETERS no address fields, so that its handler sees a count of zero and
  always aborts: no run ever sets a CHS geometry, and a CHS address means its sector number alone (`GeometryNeverSet`,
  `ChsIgnoresCylinder`). The geometry that the handler would compute is proved right in `ChsGeometry`.
* The start-up check of the buffer sizes tests no more than its first comparison (`SanityCheckExact`). It passes with a
  negative number of write buffers (`SanityCheckMissesShares`), which results exactly when rounding up half of the buffers to a
  multiple of the number of banks takes more than the other half (`SharesExact`). The shipped sizes are far from that.
* The installer's default range of blocks ends one block beyond a bank, and erases it on every present bank whose list does not
  name it (`DefaultEndGoesBeyond`).
* The installer's lists tell what the scan reported exactly when all reported block numbers are below 0x8000
  (`ListsExactWhen`, `LargeBlockConfused`). All chips in openSSD/include/nand.h meet this: they have at most 4152 blocks in a bank.
* Positions in the emulator's file differ exactly when all usable sectors together take at most 2^32 bytes, and are free of
  wrap-around exactly when there is room for one more block (`PositionsDifferExactly`, `PositionsFlatExactly`). In between, the
  file is sound if the last block starts right at the wrap point (`Fits`, `FitsExactly`); what is proved about calls on the
  emulator holds then, too. The shipped setting is 8 blocks in a bank. Of the settings that the header offers, those up to 32
  blocks fit, and with 64 or more a program of one bank overwrites pages of another (`HeaderOptions`, `LargeOptionShares`,
  `SharedIsOverwritten`).
* A transfer start that becomes due while the SATA link is down is dropped: accepted transfers are all started exactly when
  there is none (`LinkDownLoses`, `AllStartedExactly`).

## Model

| member | source | states |
|---|---|---|
| `FlashRuns.AsynchronousRefinesSequential` | openSSD/target_spw/flash.c:90-202 | every run of firmware and banks, in any interleaving, keeps the engine's invariant, and settles to the memory of executing each command as a whole when it is issued; when nothing is in flight the memory is that memory |
| `FlashRuns.InterleavingIsInvisible` | openSSD/target_spw/flash.c:273-284 | two runs with the same firmware actions that end idle end with the same flash and DRAM, whatever the banks did in between |
| `FlashRuns.Progress` | openSSD/target_spw/flash.c:273-284 | while anything is in flight the hardware can take a step, so polling is not in vain |
| `FlashRuns.StepsShrink` | openSSD/target_spw/flash.c:273-284 | each hardware step brings the controller closer to idle |
| `FlashRuns.ReadIsSettled` | openSSD/target_spw/flash_wrapper.c:63-99 | a DRAM byte that nothing in flight stores already has its final value |
| `FlashEngine.IssueStep` | openSSD/target_spw/flash.c:124-132 | issuing into an empty Waiting Room keeps the invariant, conservation of commands included, and appends the command's work to what the memory settles to |
| `FlashEngine.AcceptStep` | openSSD/target_spw/flash.c:134-170 | when a bank takes its command from the Waiting Room, every issued command is still accounted for once and in order, and the settled memory is the same |
| `FlashEngine.WorkStep` | openSSD/include/flash.h:305-343 | one unit of work of one bank keeps the invariant and the settled memory, since work of other banks in flight is independent |
| `FlashEngine.FinishStep` | openSSD/target_spw/flash.c:172-202 | a bank becoming idle keeps the invariant and the settled memory |
| `FlashMemory.RunsCommute` | openSSD/include/flash.h:186-206 | independent work of two banks can be done in either order |
| `FlashCommands.LoadsEffect` | openSSD/include/flash.h:337-341 | a transfer to the page register, byte by byte at DMA address plus column times sector size, is one overwrite of a range of it |
| `FlashCommands.UnloadsEffect` | openSSD/include/flash.h:337-341 | a transfer from the page register is one overwrite of a range of DRAM |
| `FlashCalls.ReadOutMeaning` | openSSD/target_spw/flash_wrapper.c:88-98 | the issued read copies the sectors of the page to the same offset of the page buffer |
| `FlashCalls.InProgMeaning` | openSSD/target_spw/flash_wrapper.c:275-285 | the issued program puts the bytes of the page buffer over those of the page |
| `FlashCalls.EraseMeaning` | openSSD/target_spw/flash_wrapper.c:601-635 | the issued erase blanks all pages of the block and no other |
| `FlashCalls.OneCommandMeaning` | openSSD/target_spw/flash_wrapper.c:551-567 | FC_MODIFY_COPYBACK makes the destination page the source page with the caller's bytes spliced in |
| `FlashCalls.FourCommandMeaning` | openSSD/target_spw/flash_wrapper.c:568-599 | the four commands make the same page, for every sector-aligned split, empty head or tail included |
| `FlashCalls.FourCommandEffect` | openSSD/target_spw/flash_wrapper.c:568-599 | what the four commands write for any split, aligned or not |
| `FlashCalls.FourCommandExact` | openSSD/target_spw/flash_wrapper.c:568-599 | the four commands make the spliced page of every memory if and only if the count is a multiple of the sector size |
| `FlashCalls.UnalignedTailIsLost` | openSSD/target_spw/flash_wrapper.c:594-599 | with a partial sector the last byte of the destination page keeps its old value |
| `FlashCalls.UnalignedOverwritesNew` | openSSD/target_spw/flash_wrapper.c:594-599 | with a partial sector the first byte of the tail is the source page's, although it belongs to the caller's bytes |
| `FlashCalls.CopySequenceIsWhole` | openSSD/include/flash.h:305-330 | the four commands keep the controller's rules: a write sequence starts with its row address, stays on that row and ends with a program command |
| `FlashCalls.SingleIsWhole` | openSSD/include/flash.h:305-330 | commands that are sequences of their own |
| `FlashCommands.RulesExact` | openSSD/include/flash.h:305-330 | a sequence of commands is unbroken if and only if each one may follow the one before it: data and program commands right after, and only after, one that opens or continues a write on the same row, output commands after a read of the same row |
| `FlashCalls.CopybackMeaning` | openSSD/target_spw/flash_wrapper.c:371-483 | a copyback, in the chip or through the copy buffer, is a whole-page copy |
| `FlashApart.FreeRunIsRun` | openSSD/include/flash.h:188-190 | separate footprints in DRAM are enough for the rule that no buffer in flight is reused |
| `FlashApart.BanksDoNotInterfere` | openSSD/target_spw/flash_wrapper.c:31-369 | any commands in flight on banks with separate footprints, in any interleaving with stores of the firmware: each bank and the DRAM it uses end as if its own commands, and the stores to that DRAM, had been executed alone |
| `FlashApart.ReadsIndependent` | openSSD/target_spw/flash_wrapper.c:159-213 | reads into different buffers, such as successive ones of the read ring, may be in flight together |
| `FlashCopybacks.CopybackStays` | openSSD/target_spw/flash_wrapper.c:551-599 | a modified copyback, by one command or four, stores to its copy buffer only, and loads from there and the caller's bytes only |
| `FlashCopybacks.PageByteDone` | openSSD/target_spw/flash_wrapper.c:485-599 | every byte of every page, after any copybacks of a bank with stores in between, is found by following the last copyback onto its row back to the caller's bytes or the source row as they were then |
| `FlashCopybacks.CopybacksDoNotInterfere` | openSSD/target_spw/flash_wrapper.c:551-599 | any number of modified copybacks, none included, on each bank, in any interleaving and with stores of the firmware in between: every page of every bank ends as its own bank's copybacks make it |
| `FlashCopybacks.LayoutCopybacks` | openSSD/ftl/dram_layout.h:10-33 | with the firmware's DRAM layout the same holds without further conditions on buffers, for callers' bytes in any buffers that are no copy buffers |
| `FlashCopybacks.LayoutSeparates` | openSSD/ftl/dram_layout.h:31-32 | copy buffers of different real banks, and bytes of any other buffer, share nothing |
| `FlashDriver.Driver.FlashIssueCmd` | openSSD/target_spw/flash.c:90-202 | a full Waiting Room is never overwritten, exactly one command is issued, RETURN_ON_ACCEPT implies accepted, RETURN_WHEN_DONE implies that the bank is idle and holds the result |
| `FlashDriver.Driver.FlashFinish` | openSSD/target_spw/flash.c:273-284 | ends with everything idle and the memory that was promised at issue |
| `FlashDriver.Driver.NandPagePtread` | openSSD/target_spw/flash_wrapper.c:63-99 | settles to a page read of the row of that block and page; with RETURN_WHEN_DONE the buffer holds its bytes on return; one command is issued, with the options of a read |
| `FlashDriver.Driver.NandPageRead` | openSSD/target_spw/flash_wrapper.c:31-59 | the buffer holds the whole page of that block and number on return; one command is issued |
| `FlashDriver.Driver.NandPagePtreadToHost` | openSSD/target_spw/flash_wrapper.c:159-213 | settles to a page read into the next read buffer, which is none of those that still await transmission; the command has the option that hands the buffer to the SATA hardware |
| `FlashDriver.Driver.NandPagePtprogram` | openSSD/target_spw/flash_wrapper.c:250-285 | settles to a page program of the row of that block and page; one command is issued, with the options of a write |
| `FlashDriver.Driver.NandPagePtprogramFromHost` | openSSD/target_spw/flash_wrapper.c:328-369 | issues one program of the row of that block and page from the write buffer, with the option that waits for the host, and the next buffer is the following one of the ring |
| `FlashDriver.Driver.NandBlockErase` | openSSD/target_spw/flash_wrapper.c:601-635 | settles to an erase of the rows of that block, done on return for the synchronous call; one command is issued, with the option of an erase |
| `FlashDriver.Driver.NandPageCopyback` | openSSD/target_spw/flash_wrapper.c:371-483 | settles to a whole-page copy, by block and page of source and destination, on both paths; what it issues are whole command sequences with their proper options |
| `FlashDriver.Driver.NandPageModifiedCopyback` | openSSD/target_spw/flash_wrapper.c:485-600 | settles to the spliced page, by block and page of source and destination, on both paths for whole sectors, relying on registers that persist between issues; what it issues are whole command sequences with their proper options |
| `FlashDriver.Driver.StoreByte` | openSSD/target_spw/mem_util.c:538-562 | a store to a byte that nothing in flight touches changes that byte of what the memory settles to |
| `DriverRuns.IssueCopyback` | openSSD/target_spw/flash_wrapper.c:485-600 | what a modified copyback issues, on either path, carries out the task of its rows, sectors and bytes, of which `CopybacksDoNotInterfere` speaks |
| `DriverRuns.IssueRequest` | openSSD/target_spw/flash_wrapper.c:159-213 | what a read for the host issues is the read of the next request of `HostGetsPages`: its row, and the buffer that its number in the order of requests gives |
| `DriverRuns.IssueProgramRequest` | openSSD/target_spw/flash_wrapper.c:328-369 | what a program of data from the host issues is the work of the next request of `HostDataIsProgrammed` |
| `Emulator.PositionIsFlat` | emulator/mock.c:220-223 | without wrap-around the 32-bit position is page number times page size plus sector offset |
| `Emulator.PositionsDifferExactly` | emulator/mock.c:220-223 | different usable sectors have different positions if and only if all of them together take at most 2^32 bytes |
| `Emulator.PositionsFlatExactly` | emulator/mock.c:220-223 | no position of a usable sector wraps if and only if there is room for these and one block more |
| `Emulator.FitsExactly` | emulator/mock.c:220-223 | every block is in one piece, and different sectors have different positions, if and only if no position wraps or the last block starts right at the wrap point |
| `Emulator.PositionInPage` | emulator/mock.c:220-223 | then the sectors of a page follow each other, and the page does not cross the wrap point |
| `Emulator.LastBlockIsNextZero` | emulator/mock.c:220-223 | the last usable block of a bank coincides with block 0 of the next |
| `Emulator.ShippedEmulatorFits` | emulator/mock.c:220-223 | with the emulator's constants no position wraps |
| `Emulator.HeaderOptions` | emulator/include/jasmine.h:192-202 | of the offered numbers of data blocks in a bank, exactly those up to 32 give different positions and blocks in one piece, and those up to 31 give no wrap-around |
| `Emulator.LargeOptionShares` | emulator/include/jasmine.h:197-197 | with 64 data blocks, pages of banks 0 and 16 share a position |
| `Emulator.ProgramThenRead` | emulator/mock.c:241-317 | in setups that fit, what was programmed is read back into any buffer, after any calls short of an overlapping program or an erase of the block |
| `Emulator.SharedIsOverwritten` | emulator/mock.c:220-223 | where two pages share a position, a program of one is what a read of the other delivers |
| `Emulator.Mock.NandPagePtread` | emulator/mock.c:241-257 | the code copies the bytes at the 32-bit position to the buffer's place in the DRAM array, and no others, in any setup |
| `Emulator.Mock.NandPagePtprogram` | emulator/mock.c:301-317 | likewise for a program |
| `Emulator.Mock.NandBlockErase` | emulator/mock.c:351-361 | likewise for an erase |
| `Emulator.Mock.WriteDram8` | emulator/mock.c:159-165 | likewise for a store of the firmware |
| `EmulatorRefined.ReadKeepsAgreement` | emulator/mock.c:241-257 | a read keeps file and DRAM in agreement with banks and DRAM |
| `EmulatorRefined.WriteKeepsAgreement` | emulator/mock.c:301-317 | so does a program, to any usable block |
| `EmulatorRefined.EraseKeepsAgreement` | emulator/mock.c:351-361 | so does an erase, and the block agrees from then on |
| `EmulatorRefined.StoreKeepsAgreement` | emulator/mock.c:159-165 | so does a store of the firmware into DRAM |
| `EmulatorRefined.HardwareRefinesEmulator` | emulator/mock.c:143-366 | in setups that fit, after the same calls and stores and any interleaving of the banks, the hardware's DRAM and every page of an erased block are as the emulator has them |
| `DriverRefined.PageRowExact` | openSSD/target_spw/flash_wrapper.c:44-44 | row numbers read back: the block is the quotient by the pages of a block, and the page the remainder |
| `DriverRefined.Perform` | openSSD/target_spw/flash_wrapper.c:63-635 | each read, program, erase or store through the driver, with any return mode and whatever the banks are doing, settles to what agrees with the emulator after the same call: same bank, block, page, sectors and buffer; later calls that do not meet it in DRAM may still be made |
| `DriverRefined.PerformAll` | openSSD/target_spw/flash_wrapper.c:63-635 | so do any calls one after the other, if calls on different banks do not meet in DRAM, stores come before the calls they would meet, and reads are of erased blocks |
| `DriverRefined.PerformAndFinish` | openSSD/target_spw/flash.c:273-284 | after `flash_finish` the memory itself agrees with the emulator |
| `DriverRefined.CopyPage` | openSSD/target_spw/flash_wrapper.c:371-483 | after a copyback the destination, by block and page, shows the bytes of the source; no other page of any bank changes, and no DRAM byte outside the copy buffer |
| `DriverRefined.CopyPageModified` | openSSD/target_spw/flash_wrapper.c:485-600 | the same for a modified copyback of whole sectors, with the caller's bytes in their place |
| `DriverRefined.CopyIsOfPages` | openSSD/target_spw/flash_wrapper.c:485-600 | what a spliced row means for pages by bank, block and number |
| `ReadRing.Ring.Take` | openSSD/target_spw/flash_wrapper.c:127-156 | the buffer handed out is none of those awaiting transmission, with a consumer that moves at any time, and the ring invariant is kept |
| `ReadRing.Ring.NotFull` | openSSD/target_spw/flash_wrapper.c:147-154 | different positions of producer and consumer mean that a buffer is left over |
| `ReadRing.Ring.NotAwaiting` | openSSD/target_spw/flash_wrapper.c:184-213 | the next position is that of no pending buffer |
| `HostReads.HostGetsPages` | openSSD/include/flash.h:284-286 | in every run, with reads for the host in flight on many banks and completing in any order, the host gets the requested bytes in the order of the requests, as one-at-a-time execution has them when they are asked for; and when nothing is in flight the next ones can be sent |
| `HostReads.AskStep` | openSSD/target_spw/flash_wrapper.c:159-213 | issuing a read into the next buffer of the ring meets nothing in flight, keeps what the buffers awaiting transmission settle to, and settles its own buffer to the page's bytes |
| `HostReads.CompleteIsSettled` | openSSD/include/flash.h:284-286 | once the read into a buffer has completed, nothing in flight stores there any more, whatever other reads are going on |
| `HostReads.LayoutHasRing` | openSSD/ftl/dram_layout.h:27-30 | the read buffers of the DRAM layout are such a ring |
| `HostWrites.HostDataIsProgrammed` | openSSD/include/flash.h:269-276 | in every run, with any number of programs of host data in flight and buffers filled before or after they are asked for: each bank programs, for each of its requests in turn, the data that the host sent for it and nothing else; when nothing is in flight that was done for all requests, and else the hardware can go on |
| `HostWrites.FinishStep` | openSSD/target_spw/flash_wrapper.c:329-369 | a bank that completes the program of the k-th request has put the k-th page of data over the row's bytes, and the buffer may be filled again |
| `HostWrites.FillStep` | openSSD/include/flash.h:271-273 | filling a buffer whose last program is complete disturbs neither data that still waits nor a bank that waits for data |
| `HostWrites.CanGoOn` | openSSD/target_spw/flash_wrapper.c:287-369 | although the firmware waits for no buffer, while anything is in flight the hardware can take a step or the next buffer can be filled |
| `HostWrites.LayoutHasRing` | openSSD/ftl/dram_layout.h:27-30 | the write buffers of the DRAM layout are such a ring |
| `DramLayout.BuffersAreDisjoint` | openSSD/ftl/dram_layout.h:10-33 | different buffers of any kind share no byte |
| `DramLayout.BuffersFit` | openSSD/ftl/dram_layout.h:10-22 | every buffer lies inside the DRAM |
| `DramLayout.LayoutFits` | openSSD/ftl/ftl_parameters.h:40-45 | all buffers end at least one page before the end of DRAM |
| `DramLayout.Shares` | openSSD/ftl/ftl_parameters.h:40-42 | the read share is the least multiple of the number of banks that is at least half |
| `DramLayout.SharesExact` | openSSD/ftl/ftl_parameters.h:40-42 | for all sizes, the write share is not negative if and only if rounding up one half takes no more than the other |
| `DramLayout.IdOfPtr` | openSSD/ftl/dram_layout.h:27-30 | identifier and pointer macros undo each other for every address in a buffer |
| `DramLayout.ShippedLayouts` | openSSD/ftl/ftl_parameters.h:40-45 | the shipped constants satisfy the conditions; with parity words the DRAM stays below 64 MiB |
| `DramLayout.ShippedAddresses` | openSSD/ftl/dram_layout.h:10-33 | where the buffers of the board are |
| `DramLayout.SanityCheckExact` | openSSD/ftl/ftl.c:15-42 | the check at start-up passes if and only if the other buffers alone fit |
| `DramLayout.SanityCheckMissesShares` | openSSD/ftl/ftl.c:15-42 | for 32 banks of 32 KB pages and DRAM for 98 pages it passes with -1 write buffers |
| `EccDram.Dram.WriteDram32` | openSSD/target_spw/mem_util.c:475-510 | the flat 32-bit store, parity kept |
| `EccDram.Dram.WriteDram16` | openSSD/target_spw/mem_util.c:512-536 | the flat 16-bit store, except at the last byte of a word, where only the low byte arrives |
| `EccDram.Dram.WriteDram8` | openSSD/target_spw/mem_util.c:538-562 | the flat 8-bit store, all other bytes and parity kept |
| `EccDram.Dram.ReadDram8` | openSSD/target_spw/mem_util.c:630-653 | the flat byte |
| `EccDram.Dram.ReadDram16` | openSSD/target_spw/mem_util.c:655-678 | the flat halfword, except at the last byte of a word |
| `EccDram.Dram.ReadDram32` | openSSD/target_spw/mem_util.c:680-711 | the flat word |
| `EccDram.HalfwordsExact` | openSSD/target_spw/mem_util.c:531-535 | halfword store and fetch are the flat ones for all contents if and only if the address is not the last byte of a word |
| `EccDram.RealAddrIsSpread` | openSSD/target_spw/mem_util.c:707-708 | the 128-to-132 address map, in wrapping arithmetic, names the word's place among data and parity words |
| `EccDram.SpreadIsInjective` | openSSD/target_spw/mem_util.c:707-708 | different data words have different places, and none is that of a parity word |
| `EccDram.BitOffset` | openSSD/target_spw/mem_util.c:577-579 | the wrapped bit offset names bit off % 8 of byte base + off / 8, for every base address |
| `WordBits.BitIsDigit` | openSSD/target_spw/mem_util.c:582-582 | bit t of a byte is set if and only if the digit of 2^t in its number is one |
| `WordBits.SetAdds` | openSSD/target_spw/mem_util.c:582-582 | setting bit t of a byte adds 2^t to its number, unless it is set |
| `WordBits.ClearSubtracts` | openSSD/target_spw/mem_util.c:604-604 | clearing bit t subtracts 2^t, if it is set |
| `EccDram.Dram.SetBitDram` | openSSD/target_spw/mem_util.c:564-584 | sets that bit of the flat bitmap and no other: the number in byte base + off / 8 gets the digit of 2^(off % 8), and all other bytes stay |
| `EccDram.Dram.ClrBitDram` | openSSD/target_spw/mem_util.c:586-606 | clears that bit and no other: the number in that byte loses the digit, and all other bytes stay |
| `EccDram.Dram.TstBitDram` | openSSD/target_spw/mem_util.c:608-628 | nonzero if and only if that bit is set, that is, if the number in that byte has the digit |
| `EccDram.Dram.MemSetDram` | openSSD/target_spw/mem_util.c:251-317 | fills exactly the range with the pattern, by the requests of `Chunks` |
| `EccDram.ChunksCover` | openSSD/target_spw/mem_util.c:285-312 | these are aligned, at most 32768 bytes long, and cover the range without gap or overlap |
| `EccDram.FillsAgree` | emulator/mock.c:94-114 | agrees with the emulator's fill if and only if all bytes of the pattern are the same or nothing is filled |
| `EccDram.Dram.MemCmpDram` | openSSD/target_spw/mem_util.c:740-770 | the lexicographic comparison of the two byte strings |
| `EccDram.CompareIsOrder` | openSSD/target_spw/mem_util.c:740-770 | zero for equal strings only, and antisymmetric |
| `EccDram.FirstDifferenceDecides` | openSSD/target_spw/mem_util.c:740-770 | the first different byte decides: 1 if that of the first string is larger, else -1 |
| `SataCommand.FaithfulExact` | openSSD/sata/sata_main.c:53-61 | an event queue entry reaches the FTL as meant if and only if it fits the fields and is no write to the trim marker; a count of 65536 survives |
| `SataCommand.AcceptedExact` | openSSD/sata/sata_isr.c:133-169 | an accepted transfer, as it was decoded, lies on the disk if and only if the decoded extent does not wrap around and, for a trim, the count is not zero |
| `SataCommand.TableOfCodes` | openSSD/sata/sata_table.c:25-283 | which codes are reads, writes and queued ones, which have 28-bit and which 48-bit fields, and which are not checked |
| `SataCommand.FieldsSent` | openSSD/sata/sata_isr.c:134-139 | cylinder, head, sector and the address bit are read as the host has put them into the data word |
| `SataCommand.AddressSent` | openSSD/sata/sata_isr.c:149-149 | so is a 48-bit address |
| `SataCommand.CountsAgree` | openSSD/sata/sata_isr.c:144-156 | a count field stands for the number from 1 to 256, or to 65536 for the 48-bit layout, that it equals modulo that range, for decoder and host |
| `SataCommand.SlowExactly` | openSSD/sata/sata_isr.c:167-239 | a command that is no transfer is left to the main loop, unless its code is one of those that are checked and it is out of range |
| `SataCommand.SlowNumbers` | openSSD/sata/sata_isr.c:133-165 | its address and count are those of its layout; zero counts stay only if the code is not checked |
| `SataCommand.WrapExact` | openSSD/sata/sata_isr.c:133-169 | exactly which addresses make the range check wrap, for each address layout |
| `SataCommand.AddressKept` | openSSD/sata/sata_isr.c:148-149 | a 48-bit address is decoded to itself if and only if its high two bytes are zero |
| `SataCommand.TrackKept` | openSSD/sata/sata_isr.c:134-139 | with the firmware's geometry a CHS address has the number that the host gives it if and only if cylinder and head are zero |
| `SataCommand.ObeyedExactly` | openSSD/sata/sata_isr.c:133-242 | for any geometry of the host, an accepted transfer reaches the FTL as the host sent it if and only if the command is plain: a 28-bit address, a CHS sector of the first track, a 48-bit extent that ends before 2^32, or a trim with ranges |
| `SataCommand.JudgedExactly` | openSSD/sata/sata_isr.c:133-242 | a read or write is served as sent if its sectors are on the disk and else rejected, if and only if it is plain or was rejected |
| `SataCommand.WrappedWriteTrims` | openSSD/sata/sata_isr.c:149-169 | a write at address 0xFFFF_FFFF is accepted and becomes a trim |
| `SataCommand.SectorZeroAccepted` | openSSD/sata/sata_isr.c:134-139 | CHS sector 0 of the first track is accepted |
| `SataCommand.EmptyTrimGrows` | openSSD/sata/sata_main.c:57-58 | a trim of no ranges becomes one of 65536 |
| `SataProtocol.RunKeepsInv` | openSSD/sata/sata_isr.c:172-219 | in every run, whatever the link does: a deferred start implies a non-empty queue; FTL calls follow acceptance order; every command received is accepted, answered or pending; and unless starts are lost, every accepted command is started once, in order, with its own flags |
| `SataProtocol.DrainReleases` | openSSD/sata/sata_main.c:38-74 | serving as often as the queue is long empties it and releases any deferred start |
| `SataProtocol.LinkDownLoses` | openSSD/sata/sata_main.c:63-71 | over any run, the accepted transfers that are neither started nor deferred grow by exactly the starts that become due while the link is down |
| `SataProtocol.AllStartedExactly` | openSSD/sata/sata_main.c:63-71 | all accepted transfers are started or deferred, in order and with their own flags, if and only if there are none of these |
| `SataProtocol.FlagsAreRight` | openSSD/sata/sata_isr.c:172-228 | in every run, each accepted command has the flags of its direction and transfer: to the host if and only if it is a read, and DMA if and only if its code is 0xC8, 0x25, 0xCA, 0x35 or 0x06 |
| `SataProtocol.AnsweredInOrder` | openSSD/sata/sata_isr.c:167-239 | in every run, the answers given, and the one still owed, are those to the commands received, in their order: not found for each rejected one, aborted for INITIALIZE DEVICE PARAMETERS, and its own code for every other slow one |
| `SataProtocol.ServedExactly` | openSSD/sata/sata_main.c:97-123 | in every run from reset, whatever the host sends: each accepted command has one call of the FTL, made or queued, in order; and the call does what the host sent if and only if the command is plain |
| `SataProtocol.EndToEnd` | openSSD/sata/sata_main.c:97-123 | from reset, with plain commands, all accepted transfers lie on the disk, by the host's own addresses, and the FTL is called with exactly what the host sent, in order; once the queue is empty all are started if and only if no start became due while the link was down |
| `SataProtocol.HighAddressLost` | openSSD/sata/sata_isr.c:149-149 | a run in which a write to address 2^32 overwrites sector 0 |
| `SataProtocol.CylinderLost` | openSSD/sata/sata_isr.c:134-139 | a run in which a write to cylinder 5, head 3 overwrites sector 0 |
| `SataProtocol.GeometryNeverSet` | openSSD/sata/sata_cmd.c:206-229 | no run of any commands ever sets a CHS geometry |
| `SataProtocol.ChsIgnoresCylinder` | openSSD/sata/sata_isr.c:134-139 | so that a CHS address is decoded to its sector number less one |
| `SataFirmware.Firmware.HandleGotCfis` | openSSD/sata/sata_isr.c:121-242 | the interrupt handler is the protocol's step for a command |
| `SataFirmware.Firmware.EventqGet` | openSSD/sata/sata_main.c:38-74 | takes the oldest entry and releases a deferred start while the link is up |
| `SataFirmware.Firmware.MainStep` | openSSD/sata/sata_main.c:97-150 | one turn of the main loop is the protocol's step |
| `SataFirmware.Firmware.InitializeDeviceParameters` | openSSD/sata/sata_cmd.c:206-229 | aborts for a zero count, else sets the geometry |
| `ChsGeometry.NumberInCapacity` | openSSD/sata/sata_isr.c:134-139 | addresses in a geometry have numbers below its capacity, and are found again from them |
| `ChsGeometry.LocateWithin` | openSSD/sata/sata_isr.c:134-139 | every number below the capacity belongs to an address in the geometry |
| `ChsGeometry.NewGeometryFits` | openSSD/sata/sata_cmd.c:214-225 | a new geometry has a capacity of at most the highest address |
| `ChsGeometry.NewGeometryFull` | openSSD/sata/sata_cmd.c:214-225 | heads and sectors are the host's, and one cylinder more would exceed the highest address or 16 bits |
| `ChsGeometry.AddressesAccepted` | openSSD/sata/sata_isr.c:134-169 | every address in it, read as one sector, is decoded to its number and accepted |
| `BadBlocks.GoodIsExact` | openSSD/ftl/ftl.c:79-110 | the usable blocks are, in ascending order, exactly those from 1 on whose erase succeeds |
| `BadBlocks.Ftl.UsableExactly` | openSSD/ftl/ftl.c:79-110 | the same for the blocks of a bank |
| `BadBlocks.FlagExactly` | openSSD/ftl/ftl.c:145-188 | the note names a block if and only if an erase raised the bad-block flag of a chip, and then the one that the row lies in; corrupt data withdraws the note, and failed programs leave it |
| `BadBlocks.OnesClear` | openSSD/include/flash.h:186-186 | each interrupt flag is cleared by a one in its place of the word written, and only by that |
| `BadBlocks.ClearOwnFlags` | openSSD/include/flash.h:186-186 | clearing a bank's interrupt flags leaves those of all other banks |
| `BadBlocks.Ftl.FtlIsr` | openSSD/ftl/ftl.c:123-188 | clears all flags, and notes a block for exactly the banks whose erase failed |
| `BadBlocks.Ftl.FormatBank` | openSSD/ftl/ftl.c:79-103 | selects the first usable blocks of a bank, as many as wanted or all there are |
| `BadBlocks.Ftl.Format` | openSSD/ftl/ftl.c:68-117 | succeeds if and only if every bank has enough usable blocks, with the first ones of each; else stops at the first bank that has not |
| `Installer.ListsExactWhen` | openSSD/installer/installer-linux.c:891-916 | the list of a bank marks exactly the chips and blocks reported for it if and only if all of these blocks are below 0x8000 |
| `Installer.EntryFields` | openSSD/installer/installer-linux.c:893-912 | chip bits, bank and block of a scan entry are read as they were put into it |
| `Installer.RowStartsBlock` | openSSD/installer/installer-linux.c:963-964 | the row of an erase command is the first one of its block, and of no other |
| `Installer.ErasedExactly` | openSSD/installer/installer-linux.c:939-992 | over any range, each block of each chip of a present bank, by the rows that the commands carry, is erased once if it is not listed, and never otherwise |
| `Installer.ScanToErase` | openSSD/installer/installer-linux.c:891-992 | after a scan, a block in range is erased once if the scan does not report it, else never |
| `Installer.Host.ScanBadBlks` | openSSD/installer/installer-linux.c:878-926 | accepts exactly the sound scan results, and appends to each list what they report |
| `Installer.Host.EraseFlash` | openSSD/installer/installer-linux.c:931-1003 | sends the erase commands of the plan, both ends of the range included |
| `Installer.DefaultEndGoesBeyond` | openSSD/installer/installer-linux.c:936-939 | the default range erases the block beyond the last once if and only if the bank is present, its list does not name the block and the range starts no later; else never |
| `Installer.LargeBlockConfused` | openSSD/installer/installer-linux.c:904-914 | if the scan reports block 0x8000 of the low chip, the list marks block 0 of the high chip instead |
| `Uart.DigitsParse` | openSSD/target_spw/uart.c:82-101 | the digits parse back to the number, without a leading zero |
| `Uart.WordFits` | openSSD/target_spw/uart.c:83-83 | no 32-bit number has more digits than the buffer holds |
| `Uart.PrintInt` | openSSD/target_spw/uart.c:82-101 | sends exactly these digits |
| `Checksums.SetIntegrityWord` | openSSD/sata/sata_identify.c:391-401 | all identify bytes sum to zero modulo 256 |
| `Checksums.KeysKeepSum` | openSSD/installer/installer-linux.c:230-233 | new random keys keep the sum of the frame |
| `Checksums.Sign` | openSSD/installer/installer-linux.c:428-438 | the frame sums to the signature |

## Left out

- Recovery of stuck banks: `flash_reset_one_bank` discards commands; no bank is assumed to stay in its accepting state.
- FlashDriver.Driver.FlashIssueCmd: the reset of a bank stuck in its accepting state; the order of interrupts and the counters of the polling loops are not modelled; a bank takes a step whenever it is polled and can.
- FlashDriver.Driver.NandPagePtprogram: programs whose data is in DRAM when the command is issued.
- FlashDriver.Driver.NandPagePtprogramFromHost: states what is issued; what becomes of it while the host's data is awaited is in `HostWrites`.
- FlashDriver.Driver.NandPageCopyback: the chip's rules for copybacks inside a plane or die are a parameter of the class.
- FlashDriver.Driver.NandPageModifiedCopyback: byte counts that reach beyond the page, for which the code's register value would wrap, are required not to occur.
- FlashCopybacks.CopybacksDoNotInterfere: banks that also run commands of other kinds; these are covered by `BanksDoNotInterfere`.
- HostReads.HostGetsPages: other commands and stores of the firmware keep off the read buffers; a buffer is sent in one step.
- HostWrites.HostDataIsProgrammed: other commands and stores of the firmware do not store into the write buffers; a buffer is filled in one step. `nand_page_program_from_host` is its partial form with all sectors.
- DriverRefined.CopyPageModified: byte counts that are no whole sectors, for which the code makes another page (`FourCommandExact`).
- `flash_copy`, `flash_modify_copy` and `flash_erase` repeat the `nand_*` calls, as do `nand_page_program` and the full-page host transfers.
- Correction of errors by the ECC, and the spare area of pages: a page reads as it was programmed.
- Writing zeros over unerased bytes: programming overwrites, as in the emulator, where the chip could only clear bits.
- Emulator.ProgramThenRead: setups in which the last block crosses the wrap point; different sectors still have different positions there, but blocks are not in one piece.
- Emulator.Mock.WriteDram8: stores of two and four bytes, which are their single bytes; unaligned or past the end they are not modelled.
- Emulator.Mock.NandPagePtread: a read beyond the end of the backing file, where the emulator stops with a failed assertion; and its stubs for copyback and for DRAM bits.
- EccDram.Dram.WriteDram32: unaligned 32-bit stores, which the code reports as an error under its debug option only.
- EccDram.Dram.ReadDram32: unaligned 32-bit fetches, likewise.
- EccDram.Dram.SetReptDram: the memory utility is modelled to store word by word; a request of zero bytes stores nothing.
- Words are modelled as four bytes on which the bitwise operators act; the parity word is an arbitrary function of its unit.
- SataFirmware.Firmware.HandleGotCfis: the PIO setup FIS, and the registers for transfer size and sector offset.
- SataFirmware.Firmware.MainStep: one turn is one step; slow commands other than INITIALIZE DEVICE PARAMETERS are only recorded as answered.
- SataProtocol.RunKeepsInv: the host sends the next command only after the one before was started or answered; soft reset, link initialisation and queued commands (0x60, 0x61) are left out.
- SataProtocol.EndToEnd: the interrupt does not arrive between a slow command's answer and the end of its handler; one turn of the main loop is one step.
- Slow commands other than INITIALIZE DEVICE PARAMETERS: that they are answered once is modelled, what they answer is not.
- BadBlocks.Ftl.NandBlockEraseSync: the interrupt of a failed erase is taken before the call returns, as `format` relies on.
- BadBlocks.Ftl.FtlIsr: messages, and failures of programs, which are only printed.
- Installer.Host.ScanBadBlks: banks from 32 on and lists beyond their capacity, which the code would store outside its arrays.
- Installer.Host.EraseFlash: the commands are recorded, not sent; the final FLASH_FINISH and the frame's other fields are left out.
- Checksums.Sign: the contents of the frame's other words; later commands change them without a new signature.
- The FTL itself: `ftl_read`, `ftl_write`, `ftl_trim` and `ftl_flush` are empty in the repository.
- Registers of SDRAM, GPIO, PLL and PHY, chip timing, LED, counters and debug output.
