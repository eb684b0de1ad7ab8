# Verified models of the disk installer and of the Doom port's core loops

This project models six parts of the repository in Dafny and proves properties of the models. `dafny verify
dfyconfig.toml` checks everything.

* **The disk installer's storage engine** (`limine/limine.c`). A one-block write-back cache over a device whose
  transfers may fail, an undo log of at most 256 entries, its file, and on top of them the GPT editor, the
  GPT-to-MBR conversion, the boot sector patcher and the install with its cleanup. `Installer.Device` is the program's own form: a disk array, a
  cache array, `cached_block`, the dirty flag and the array of log entries, changed in place by chunk loops. Its
  methods are proved equal to functions of the device state (`BlockCache`, `DiskSession`, `Uninstall`, `UndoFile`),
  and the theorems over whole runs are lemmas about those functions. `Transfers`, `UninstallFaults` and `RunFaults` count
  transfers: which are made, and what one that goes wrong comes to. `OnDisk`, `MbrBytes` and `GptBytes` say what the
  functions for the formats on the disk mean, byte by byte at fixed places. Every transfer consumes one entry of a fault
  script: it works, its seek fails, or its transfer fails and leaves any bytes in the cache or any prefix of the
  block on the disk. All results hold for every script.

  An install is a list of reads and writes that depends on what is on the disk (`Scripts`). Every method of the
  program that touches the device is proved to come out, under any faults, as the run of its list: `GptProbe` looks for
  the headers, `MbrConversion` converts the table of an ISO image, `MbrCheck` checks a master boot record, `BootSector`,
  `PartitionInstall` and `GptInstall` put stage 2 in place, and `BiosInstall` is the whole program with its cleanup
  (`InstallEnd`). So the lists say when an install succeeds (`Success`, `InstallResults`, `PathResults`, `IsoResults`),
  what it leaves (the same, `MbrVerdict`, `ForcedInstall`, `GptPlan`, `GptFinal`), and what a failure can destroy (`TornWrite`,
  `TornRun`, `MbrSafety`).
* **The automap** (`ezLibC/doom/am_map.c`). Cohen-Sutherland clipping, step by step (`Automap`) and as a loop
  (`AutomapClip`), with the true segment in real numbers beside it (`AutomapCover`); Bresenham drawing into the frame
  buffer (`AutomapLine`); and what the reject on map coordinates loses (`AutomapReject`).
* **The tic scheduler** (`ezLibC/doom/d_loop.c`): a ring of 128 command sets between a producer driven by an
  arbitrary clock and a consumer that runs each set `ticdup` times (`TicLoop`).
* **The screen wipes** (`ezLibC/doom/f_wipe.c`): the melt through transposed buffers (`Melt`, `ScreenWipe`) and the
  colour fade (`ColorFade`).
* **Demos** (`ezLibC/doom/g_game.c`): the recorder with its growing buffer, the player (`DemoFormat`, `Demo`), and
  the rounding of turns with its carry (`Turning`). `I_Error` ends the program (`ezLibC/doom/i_system.c:469`), and with
  it a recording.
* **Chat** (`ezLibC/doom/hu_lib.c`, `ezLibC/doom/hu_stuff.c`): lines typed on one machine and typed again on another
  from the characters that travel with the tic commands (`ChatLine`, `Chat`), and the keys by their codes (`ChatKeys`).

`Bytes`, `Blocks`, `Grid`, `CArith` and `Ticcmds` hold what several parts share. `Blocks` defines block numbers and
offsets by repeated subtraction, which keeps the proofs linear, and proves them equal to `/`, `%` and `*`.

## What the proofs found

* A write that fails between two of its blocks is not logged (`limine/limine.c:543-545`), so bytes already flushed
  cannot be undone. `TornWrite.TornWriteExactly` gives the exact condition under which no fault can do harm,
  `InstallEnd.SafeExactly` that of a whole install, and `MbrSafety.MbrSafeExactly` what it comes to behind a master boot
  record: both halves of stage 2, as far as the block in which each ends, must be on the disk already. An install that
  undoes itself and reports success has restored the disk unless it has a harmful write
  (`InstallResults.OpenAndInstall`).
* The log of 256 entries is too small for most disks with blocks of 4096 bytes: with the image that the program carries
  and entries of 128 bytes a GPT install fits it only if the last used entry has number 805 or a higher one
  (`GptInstall.CarriedImage`, `PathResults.EmbedInstallExactly`). In the usual layout of such disks, with four blocks for
  the secondary array, it never succeeds at all (`GptInstall.Usual4096Infeasible`).
* Uninstalling survives one transfer that goes wrong for each entry, and none at its last flush: a single bad transfer makes
  it return false exactly if it is that one (`Transfers.OneBadTransfer`).
* With entries of 128 bytes the partition with number 2^25, counted from 0, is read from entry 0, because its offset has
  32 bits (`GptBytes.EntryPlaceStartsOver`).
* A first half of stage 2 that is larger than the area makes the new count of entries negative; the embedding is then
  refused, unless no entry fits a block and none is in use (`GptPlan.LargeHalfExactly`).
* The CRC of a GPT header is taken over 92 bytes, whatever length the header claims. By section 5.3.2 of the UEFI
  Specification that is wrong exactly if the CRC over the claimed length is another one
  (`GptEmbed.HeaderValidExactly`); for every new count and array CRC there is a header of 93 bytes for which it is
  (`GptEmbed.LongHeaderInvalid`).
* The places for stage 2 ignore `first_usable_lba` and the partitions: `GptInstall.BlocksUntouchedExactly` says when a
  partition is left alone, and with a small array the first half goes into a partition right behind it
  (`GptInstall.SmallTableOverwritten`).
* A log with an empty entry cannot be stored, because one `fwrite` of zero bytes reports zero items
  (`UndoFile.FileRoundTrip`, `DiskRecovery.InstallThenUninstall`). An install makes an empty write exactly if stage 2
  has at most one sector.
* Loading an uninstall file runs over the end of the array exactly if the file announces more than 256 entries and
  the first 256 can be read (`Installer.Device.LoadUndo`, `UndoFile.OverrunningFile`).
* The split of stage 2 into two 16-bit halves is right exactly for the image sizes named in
  `BootSector.HalvesFitExactly`.
* The check of a partition number (`limine/limine.c:1074`) lets the number one past the last entry through to the
  test of its entry. `PastLast.PastLastInstalled` shows a disk with signed headers and an empty table on which the
  install for that number succeeds, and for no other number.
* Installing into a partition never looks at its last block: the halves run over its end exactly if it has fewer
  blocks than they need (`PartitionInstall.InPartitionExactly`, `PartitionInstall.SmallPartitionOverrun`). An
  entry that starts at block 0 has the boot sector overwritten by stage 2 (`PartitionInstall.BlockZeroOverSector`).
* A fifth partition has its addresses stored behind an array of four (`limine/limine.c:812`) exactly if more than four
  entries are in use, the first four can be converted and the fifth starts within 32 bits (`Mbr.AnyBehindExactly`).
* The secondary GPT header gets the checksum of the primary array; it is right for its own array exactly if the used
  entries had the same CRC in both arrays before (`GptInstall.BothTablesSound`), and wrong if they differed in one byte
  (`GptInstall.OneByteUnsound`).
* A melt asked for no ticks ends at once, whatever is on the screen (`ScreenWipe.Wipe.Turn`).
* From a turbo scale of 256 on, a forward move can be stored as the end-of-demo marker (`Turning.MarkerExactly`); a
  recording then ends at that command (`Demo.Record`).
* A demo without an end marker is played to its last whole command and then read beyond its end
  (`Demo.Player.PlayAll`).
* Escape closes a chat line without telling the receiver, who puts the next line behind the text
  (`Chat.EscapeLeftover`); as long as no key of it is refused by a full line, the receiver gets what was meant exactly if
  Backspace was pressed on the new line while it was empty at least once for every character left over
  (`Chat.EscapeExactly`). A key dropped by a full queue does the same kind of harm (`Chat.Sender.TypeKey`).
* A chat macro sends the unfinished line before it as a message of its own (`Chat.PlainMacro`).
* The early reject of the automap works on map coordinates and loses visible pixels: row 0 always, row 1 if and only
  if the scale is smaller than what dividing by it cuts off over the height of the frame, the last column if and only
  if it is smaller than that over the width, and no others (`AutomapReject.ScaledWindowDrops`; at scale 5584 and 320 by
  168 pixels both are lost, `AutomapReject.LinesDropped`).

## Model

| member | source | states |
|---|---|---|
| Bytes.LittleEndianRoundTrip | limine/limine.c:1218-1225 | a number that fits its width is read back from its little-endian bytes |
| Bytes.FromLittleEndianRoundTrip | limine/limine.c:442-452 | bytes read as a number and stored again are the same bytes |
| Bytes.NumberOfBytes | limine/limine.c:1219-1225 | the two, four or eight bytes of a number lie on the disk lowest first |
| Bytes.StoredFour | limine/limine.c:1178-1188 | a number stored in four bytes: its four lowest digits to the base 256 in that order |
| Blocks.BlocksAreDivMod | limine/limine.c:480-487 | block number, offset and block address are the quotient, remainder and product the program computes |
| UndoLog.ReversedAt | limine/limine.c:377-381 | the reversed log holds entry `n - 1 - k` at `k` |
| UndoLog.ReplayByte | limine/limine.c:549-563 | replaying the reversed log leaves at each address the byte saved first for it, or what was there |
| UndoLog.UndoableIffRestored | limine/limine.c:377-383 | the reversed log restores the original disk if and only if every address was saved first with its original byte or never changed |
| UndoLog.ApplyAllOutside | limine/limine.c:1210-1231 | bytes outside every write of a list keep their value |
| UndoLog.ApplyAllKeeps | limine/limine.c:1210-1231 | what a write stored where no later write of the list reaches is still there at the end |
| BlockCache.FlushSpec | limine/limine.c:315-334 | whatever fails, flushing never changes the logical contents; if it succeeds the disk equals them, and every byte on the disk is always its old or its logical value |
| BlockCache.LoadBlockSpec | limine/limine.c:346-360 | loading leaves the device well formed; it succeeds if and only if its transfer works and the block lies on the disk, and then the cache shows the block; otherwise the cache still counts as that of the block it held |
| BlockCache.CacheBlockSpec | limine/limine.c:336-361 | switching blocks never changes the logical contents, for every fault; on success the cache shows the wanted block of them |
| BlockCacheLoops.ChunkSpec | limine/limine.c:486-489 | a chunk is positive and never leaves its block |
| BlockCacheLoops.GetFromSpec | limine/limine.c:476-496 | a read returns exactly the logical bytes at its address for every address, count and block size, and changes none, whatever fails |
| BlockCacheLoops.PutFromSpec | limine/limine.c:523-547 | a write changes exactly the logical bytes it reached, all of them when it succeeds; a failed write has stored whole chunks only, all before its last block |
| Transfers.PutTakes | limine/limine.c:523-547 | a write takes exactly one load, with a flush before it if the cache is dirty, for its first block unless that is cached, and a flush and a load for each further block |
| Transfers.PutInCachedBlock | limine/limine.c:337-338 | a write inside the cached block makes no transfer, so nothing can go wrong with it |
| Transfers.GetInCachedBlock | limine/limine.c:337-338 | nor does a read there, which gives the logical bytes |
| DiskSession.ReadKeeps | limine/limine.c:601-605 | a read keeps the disk recoverable, and succeeds only with the right bytes |
| DiskSession.WriteKeeps | limine/limine.c:498-547 | a completed logged write keeps both the disk and the logical contents recoverable; a failed one does unless it tore bytes the log does not know |
| DiskSession.LogGrows | limine/limine.c:516-545 | adding the saved bytes of a write to the log covers everything the write may have put on the disk |
| DiskRecovery.RunKeeps | limine/limine.c:498-547 | every state of a run of completed operations, and of one that stopped without tearing unlogged bytes, with every eviction, flush and fault, can be undone to the original disk |
| DiskRecovery.LastFlushKeeps | limine/limine.c:1233-1234 | whatever the last flush does, the disk can still be undone |
| DiskRecovery.SingleBlockWritesAbortHarmlessly | limine/limine.c:498-547 | writes that stay inside one block can fail anywhere without losing anything |
| DiskRecovery.AbortedInstallRestored | limine/limine.c:1233-1251 | a run that stops anywhere, its last flush included, is undone byte for byte whenever undoing reports success, the dirty block being dropped, unless its last write tore unlogged bytes |
| DiskRecovery.RunLog | limine/limine.c:503-545 | the log of a completed run has at most 256 entries, and none is empty if and only if no write was |
| DiskRecovery.InstallThenUninstall | limine/limine.c:1233-1254 | install, flush, reverse once, store, load later and uninstall with any cache contents and any faults restores the original disk whenever uninstalling reports success; storing works if and only if no write was empty |
| TornWrite.TornWriteExactly | limine/limine.c:516-546 | a logged write keeps the original recoverable under every fault script if and only if every unlogged byte before its last block is rewritten with its own value |
| TornWrite.TearingScript | limine/limine.c:526-546 | otherwise names a fault script under which the write fails and the original is lost |
| TornRun.HarmfulCrosses | limine/limine.c:526-541 | only a write across a block boundary can tear unlogged bytes |
| Scripts.PerformEffect | limine/limine.c:498-547 | an operation that succeeds under any faults lies inside the disk and the log has room for it, and its effect on logical contents and log depends on these alone |
| Scripts.RunEffect | limine/limine.c:498-547 | so for whole lists: a run that completes had room for everything, and leaves what the list says |
| Scripts.RunAppend | limine/limine.c:601-611 | a run of two lists is a run of the first and, if that completes, one of the second |
| Success.PerformFaultless | limine/limine.c:498-547 | without faults an operation succeeds if and only if it lies inside the disk and the log has room |
| Success.RunFaultless | limine/limine.c:498-547 | without faults a list completes if and only if all of it lies inside the disk and its writes fit the log; whatever it comes to can be undone |
| Success.RunFits | limine/limine.c:516-522 | every entry made in the log lies inside the disk |
| RunFaults.DoableExactly | limine/limine.c:503-515 | what can be done at all: what lies on the disk, and 256 writes |
| RunFaults.RunSpends | limine/limine.c:601-611 | nothing is retried while installing: a list that could be done completes if and only if none of its transfers goes wrong, and spends exactly one bad transfer otherwise |
| Success.InstallFaultless | limine/limine.c:1233-1251 | without faults, on whole blocks: an install gets to its end if and only if its script lets it and is feasible; otherwise undoing succeeds and the disk is the original |
| TornRun.PutWorks | limine/limine.c:523-541 | every write inside the disk has a script under which all its transfers work and any other script is left to come |
| TornRun.HarmfulScript | limine/limine.c:498-547 | if some write of an install can tear unlogged bytes at its place in the run without faults, a fault script does so and the original is lost |
| TornRun.TornRunExactly | limine/limine.c:498-547 | an install with its last flush keeps the original recoverable under every fault script if and only if each write is harmless to tear at its place in the run without faults |
| Uninstall.RestoreExtentSpec | limine/limine.c:559-577 | an entry that raised no flag was written: the failed first attempt was flushed, never garbage, before the retry; `UninstallFaults.RestoreExtentExactly` says when no flag is raised |
| Uninstall.RestoreAllSpec | limine/limine.c:559-578 | entries that raised no flag leave the logical contents equal to the fold of all of them |
| Uninstall.UninstallSound | limine/limine.c:549-599 | if uninstalling returns true the physical disk is the starting disk with every entry written in order, for every fault pattern and whatever the cache held |
| Uninstall.UninstallComplete | limine/limine.c:549-599 | on a device of whole blocks without faults it returns true if and only if every entry lies inside the device |
| Uninstall.PutFaultless | limine/limine.c:523-547 | without faults every write inside the device completes |
| UninstallFaults.PutSpends | limine/limine.c:523-547 | a write inside the device fails only by a transfer that goes wrong, and stops at the first one |
| UninstallFaults.RestoreExtentExactly | limine/limine.c:561-577 | an entry inside the device raises a flag if and only if at least two transfers went wrong while it was restored: the retry makes good for exactly one |
| UninstallFaults.UninstallExactly | limine/limine.c:549-599 | with all entries inside a device of whole blocks, for every fault script: uninstalling returns true, with every entry written, if and only if at most one transfer went wrong for each entry and the last flush was not hit; so one bad transfer in all harms nothing but as the last flush |
| UninstallFaults.FirstTransferBad | limine/limine.c:561-577 | a script whose first transfer alone goes wrong never harms uninstalling, and one whose first two go wrong makes it return false, if there is anything to restore |
| Transfers.OneBadTransfer | limine/limine.c:549-599 | if exactly transfer number `j` goes wrong, uninstalling returns true, with the disk restored, if and only if `j` is not the number of transfers that restoring the entries takes, which is that of the last flush |
| UninstallFaults.EveryEntryTried | limine/limine.c:559-582 | without faults every byte of every entry that the device has room for is restored in order, also where some entries do not fit and uninstalling returns false |
| UndoFile.EntriesRoundTrip | limine/limine.c:406-416 | the entries of a log load back unchanged, also with more bytes behind them |
| UndoFile.FileRoundTrip | limine/limine.c:391-474 | a log can be stored if and only if no entry is empty, and what was stored loads back unchanged |
| UndoFile.FileLayout | limine/limine.c:398-418 | the file holds the number of entries in its first eight bytes and behind them one entry after the other: place, length and bytes |
| UndoFile.LoadsExactly | limine/limine.c:438-465 | just those logs are loaded that lie in the file like that, in the announced number, none of their entries empty |
| UndoFile.OverrunningFile | limine/limine.c:442-460 | a file that announces 257 entries and has them |
| Installer.Device.Init | limine/limine.c:282-313 | succeeds if and only if some guess can be read; then block 0 is cached, clean and coherent, and the disk is unchanged |
| Installer.GuessesExactly | limine/limine.c:282-313 | the block sizes tried are 512, 2048 and 4096 in that order, each with a transfer of its own, and the first that can be read is taken |
| Installer.Device.WriteBack | limine/limine.c:324-331 | exactly the first `n` bytes of the cache reach the disk at the block's address |
| Installer.Device.FlushCache | limine/limine.c:315-334 | the in-place flush is the function of the device state that the theorems use |
| Installer.Device.LoadBlock | limine/limine.c:346-360 | the same for the seek and read of a block |
| Installer.Device.CacheBlock | limine/limine.c:336-361 | the same for switching blocks |
| Installer.Device.ReadChunk | limine/limine.c:480-492 | one turn fills exactly the next bytes of the buffer with the chunk, computed with `/` and `%` |
| Installer.Device.Read | limine/limine.c:476-496 | the loop over the caller's buffer is the reading function, and leaves the rest of the buffer alone |
| Installer.Device.WriteChunk | limine/limine.c:526-541 | one turn stores exactly the chunk in the cache and marks it dirty |
| Installer.Device.Store | limine/limine.c:523-541 | the loop is the writing function and leaves the log alone |
| Installer.Device.Write | limine/limine.c:498-547 | while installing it is the logged write, otherwise the plain one |
| Installer.Device.ReverseUndo | limine/limine.c:377-383 | the log is reversed through the second array |
| Installer.Device.RestoreEntry | limine/limine.c:559-577 | one entry with its single retry, flush and invalidation is the restoring function, of which `UninstallFaults.RestoreExtentExactly` and `Transfers.OneBadTransfer` say what the retry is good for |
| Installer.Device.UninstallAll | limine/limine.c:549-599 | the whole of it is the function that the soundness theorem is about |
| Installer.Device.StoreUndo | limine/limine.c:391-429 | the bytes stored are the file of the log, or it fails at the first empty entry |
| Installer.Device.LoadUndo | limine/limine.c:431-474 | the entries loaded are those of the file, or it fails where the file cannot be read; it runs over its array if and only if more than 256 entries are announced and the first 256 can be read |
| Installer.Device.Peek | limine/limine.c:601-605 | during an install, under any faults: the run of one read; the right bytes and nothing changed, or a jump to cleanup |
| Installer.Device.Patch | limine/limine.c:607-611 | during an install, under any faults: the run of one logged write; exactly these bytes change, or a jump to cleanup |
| Crc32.TableIsEightSteps | limine/limine.c:117-161 | each of the 256 table entries is eight bit steps of the reflected polynomial 0xEDB88320 from its index (section 8 of RFC 1952) |
| Crc32.TableStep | limine/limine.c:215-217 | one table step equals eight bit steps for all 2^32 states |
| Crc32.TableFeeds | limine/limine.c:215-217 | one turn of the loop equals feeding eight bits of the message |
| Crc32.Compute | limine/limine.c:211-221 | the table-driven loop computes the bit-by-bit CRC-32 of every byte sequence |
| Crc32.CheckValue | limine/limine.c:211-221 | the CRC of "123456789" is 0xCBF43926, and that of nothing is 0 |
| Crc32.DetectsByteChange | limine/limine.c:211-221 | changing any single byte of any message changes its checksum |
| BootSector.HalvesFitExactly | limine/limine.c:1058-1063 | the split of stage 2 covers it exactly if and only if stage 2 is empty, one whole sector, or more than one and at most 254 sectors |
| BootSector.SplitsExactly | limine/limine.c:1058-1063 | the first half lies inside the image if and only if stage 2 is empty or has a whole sector; the image carried has 19150 bytes and halves of 9728 and 8910 |
| MbrBytes.SizesExactly | limine/limine.c:1058-1063 | both halves in whole sectors, the odd one in the first half, for up to 254 sectors |
| MbrBytes.SectorBytes | limine/limine.c:1217-1225 | bytes 420 to 439 of the sector are the two sizes of 16 bits and the two places of 64 bits, lowest byte first |
| BootSector.EmptyHalfExactly | limine/limine.c:1212-1215 | one of the two stage-2 writes is empty if and only if stage 2 has at most one sector |
| BootSector.BootSectorSpec | limine/limine.c:1203-1231 | at the end bytes 440 to 509 and 218 to 223 are as before, 420 to 439 hold sizes and places of the halves, and the rest of the sector is the boot image |
| BootSector.StagesReassemble | limine/limine.c:1212-1225 | loading the halves from the places stored in the sector gives every byte of stage 2 once and in order |
| BootSector.BootOutside | limine/limine.c:1209-1231 | nothing outside the boot sector and the two halves changes |
| BootSector.WriteImage | limine/limine.c:1209-1215 | the run of the three image writes |
| BootSector.PatchPlaces | limine/limine.c:1217-1225 | the run of the writes of the four fields |
| BootSector.SaveFields | limine/limine.c:1203-1207 | the run of two reads: the time stamp and the table as they were, nothing changed |
| BootSector.RestoreSaved | limine/limine.c:1227-1231 | the run of both writes back |
| BootSector.WriteStages | limine/limine.c:1203-1231 | the whole phase is, under any faults, the run of two reads and nine writes that depend on the disk |
| BootSector.BootOpsExactly | limine/limine.c:1203-1231 | it writes nine times, and stays inside a disk if and only if that has a sector and room for what is not empty of the halves |
| BootSector.BootInstalled | limine/limine.c:1203-1231 | with the halves apart and behind the sector: the sector keeps time stamp and table and leads to all of stage 2, and everything else is as before |
| BootSector.HalfOverSector | limine/limine.c:1209-1213 | with the first half at address 0 the sector holds the beginning of stage 2 and not the boot code |
| Mbr.ChsRoundTrip | limine/limine.c:188-209 | for every address the three bytes name that address, or the last that can be named |
| OnDisk.ChsNamed | limine/limine.c:188-209 | below 63 * 255 * 1024 the head is at most 254, the sector 1 to 63, and cylinder, head and sector count the address out; from there on the bytes are 0xfe, 0xff and 0xff |
| OnDisk.ChsUnique | limine/limine.c:188-209 | no two triples of bytes name the same address |
| Mbr.FillChs | limine/limine.c:188-209 | the output array holds those three bytes |
| Mbr.LookUpType | limine/limine.c:178-186 | the search of the conversion table finds the type of every GUID pair; `OnDisk.TypeExactly` says which |
| OnDisk.TypeExactly | limine/limine.c:165-186 | the sixteen bytes of the EFI system partition become 0xef, of Microsoft basic data 0x07, of HFS+ 0xaf, and no others become anything |
| OnDisk.EntryConverted | limine/limine.c:103-114 | an entry can be converted if and only if bytes 36 to 39 and 44 to 47 are zero and its first sixteen bytes are one of those three; its kind, start and end are those of its bytes |
| OnDisk.EntryInUse | limine/limine.c:800-803 | an entry is in use if and only if one of its second sixteen bytes is not zero |
| Mbr.GatherEntry | limine/limine.c:800-841 | one turn with its tests in order gathers the entry, skips it or gives up, and tells whether it stored behind the array |
| Mbr.UsedIndicesSpec | limine/limine.c:800-803 | the used entries by number: exactly those in use, in rising order |
| Mbr.GatheredParts | limine/limine.c:793-842 | partitions are gathered if and only if at most four entries are in use and all have 32-bit addresses and known types; then part `k` has start, end and type of the `k`-th used entry |
| OnDisk.GatheredExactly | limine/limine.c:793-842 | by the bytes: if and only if no more than four entries are in use, and of each both addresses have 32 bits and the first sixteen bytes are one of the three types |
| Mbr.GatherStops | limine/limine.c:805-837 | once an entry cannot be converted no later one changes that |
| Mbr.AnyBehindExactly | limine/limine.c:812-836 | addresses are stored behind the array if and only if more than four entries are in use, the first four fit and the fifth starts within 32 bits |
| Mbr.GatherParts | limine/limine.c:783-842 | the loop is, under any faults, the run of its reads; it gathers exactly those, or leaves the GPT alone, and tells whether anything was stored behind the array |
| Mbr.PartFillsSlot | limine/limine.c:874-882 | the five writes of an entry fill one slot and keep its active flag |
| Mbr.TableFilled | limine/limine.c:873-883 | after all entries each slot holds its own partition and nothing else has changed |
| Mbr.SlotDecodes | limine/limine.c:874-882 | a slot decodes to start, type and count of its partition, and to its first and last address as far as cylinder, head and sector can name them |
| Mbr.SectorCountExact | limine/limine.c:878-879 | the stored count is the length of the partition if and only if that is not negative and fits 32 bits |
| MbrConversion.ZeroBlocks | limine/limine.c:851-859 | the run of the zeroing writes |
| MbrConversion.WriteId | limine/limine.c:866-871 | the run of the four writes of the disk ID |
| MbrConversion.WritePart | limine/limine.c:874-882 | the run of one entry's five writes |
| MbrConversion.Convert | limine/limine.c:844-883 | the writing half is, under any faults, the run of all its writes |
| MbrConversion.ConversionSpec | limine/limine.c:844-883 | the first sector then has the new ID, the partitions in the first slots without active flag, and zeros everywhere else |
| MbrConversion.ConversionElsewhere | limine/limine.c:851-883 | behind the first sector exactly the blocks of both tables become zero and everything else stays |
| OnDisk.RunIsStretch | limine/limine.c:851-859 | a run of blocks whose addresses have 64 bits is one stretch of the disk |
| MbrConversion.ConvertedDecodes | limine/limine.c:873-883 | every converted partition decodes from the final disk to its own start, type, count and addresses |
| MbrConversion.ConversionLists | limine/limine.c:793-883 | slot `i` of the final disk decodes to start, end and type of the `i`-th used entry of the disk before, and the slots behind are empty |
| OnDisk.ConvertedBytes | limine/limine.c:793-883 | slot `i`, from byte 446 + 16 * i on, has the flag 0, the kind of its entry's sixteen type bytes, its four start bytes, its length modulo 2^32, and its first and last address by cylinder, head and sector; the ID is in bytes 440 to 443 |
| MbrConversion.ConvertGpt | limine/limine.c:770-888 | the conversion is, under any faults, the run of its list; if that completes it was carried out if and only if the disk shows an ISO volume whose used entries all fit |
| MbrConversion.ConversionView | limine/limine.c:770-888 | its list leaves the converted disk, or the disk as it was |
| GptBytes.IsoExactly | limine/limine.c:772-781 | an ISO 9660 volume is "CD001" in byte 1 of its sector 16 |
| GptBytes.EntryOfExactly | limine/limine.c:794-798 | entry `k` of an array lies behind `k` others |
| GptEmbed.UpdatedHeaderSpec | limine/limine.c:1173-1177 | the new header carries the CRC of its first 92 bytes, the new count and array CRC, and every other field is kept |
| GptBytes.HeaderFields | limine/limine.c:79-101 | size, alternate address, array address, count and entry size are read from bytes 12, 32, 72, 80 and 84 of a header, lowest byte first (section 5.3.2 of the UEFI Specification) |
| GptBytes.PlacesExactly | limine/limine.c:750-755 | the other header and the array lie at the blocks named, in blocks of the size found and 64 bits |
| GptBytes.SpanCrcExactly | limine/limine.c:1173-1177 | the checksum of a header is taken of the bytes in front of its own field, four zeros, and the bytes behind it |
| GptEmbed.HeaderValidExactly | limine/limine.c:1173-1177 | by section 5.3.2 of the UEFI Specification that header is valid if it claims 92 bytes, and otherwise if and only if the CRCs of both lengths are the same |
| GptEmbed.LongHeaderInvalid | limine/limine.c:1173-1177 | for every count and array CRC a header of 93 bytes that is left invalid |
| GptEmbed.UpdateHeader | limine/limine.c:1173-1186 | the in-order updates give that header |
| GptEmbed.KeptWholeBlocks | limine/limine.c:1119-1124 | a half placed at the last block boundary that leaves it room ends inside its area and wastes less than a block |
| GptEmbed.NewArrayFits | limine/limine.c:1126-1131 | the shortened array ends before the first half |
| GptEmbed.PlaceFromEnd | limine/limine.c:1119-1124 | counting back from the end and masking gives that place |
| GptPlan.PlacementFits | limine/limine.c:1119-1131 | in sensible tables the 64-bit arithmetic gives the places in the areas and the count of entries that fit |
| GptPlan.LargeHalfExactly | limine/limine.c:1119-1136 | a first half larger than the area makes the signed count minus what fits the excess, so the embedding is refused if and only if an entry fits a block or one is in use |
| GptPlan.EmbedEffect | limine/limine.c:1142-1190 | in sensible tables the embedding's list shortens both arrays and renews both headers |
| GptEmbed.LastUsedSpec | limine/limine.c:1104-1117 | the entry found is used and no later one is |
| GptEmbed.FindLastUsed | limine/limine.c:1104-1117 | the scan is the run of its reads, and finds the last used entry |
| GptEmbed.ZeroEntries | limine/limine.c:1142-1153 | the run of the writes that zero exactly the unused entries |
| GptEmbed.EmbedStored | limine/limine.c:1142-1190 | after the writes both areas hold the new array and both headers are at their places |
| GptEmbed.ArrayChecksum | limine/limine.c:1156-1171 | the checksum is that of the new array as it is on the disk |
| GptEmbed.WriteEmbedding | limine/limine.c:1142-1190 | all writes of the embedding are, under any faults, the run of their list, with the checksums of what is then on the disk |
| GptEmbed.MakePlacement | limine/limine.c:1119-1131 | both places and the new count, in 64 bits |
| GptEmbed.Embed | limine/limine.c:1104-1190 | under any faults the run of its script: refused, nothing changed, if and only if in the signed comparison a used entry would be cut off |
| GptFinal.HalvesInAreas | limine/limine.c:1119-1131 | both halves lie behind the shortened arrays and inside the two areas |
| GptFinal.GptInstallSpec | limine/limine.c:1104-1231 | on the final disk both arrays keep their used entries and are zero behind them; both headers carry the CRC of their first 92 bytes, the new count and the checksum of the primary array and keep every other field; the boot sector is the image with time stamp and table kept and leads to all of stage 2; every byte outside boot sector, headers, zeroed entries and halves is as before |
| GptFinal.RenewedValidExactly | limine/limine.c:1173-1190 | a final header is valid by the standard if it claims 92 bytes, and otherwise if and only if the CRCs of both lengths are the same |
| GptFinal.ArraysAgreeExactly | limine/limine.c:1156-1190 | both final arrays are the same if and only if their used entries were |
| GptFinal.ArrayCrcsExactly | limine/limine.c:1156-1190 | their CRCs are the same if and only if those of the used entries were |
| InstallEnd.Complete | limine/limine.c:1233-1247 | the last flush, under any faults; if it works the log is reversed once |
| InstallEnd.Undo | limine/limine.c:1246-1251 | reverse the log and uninstall |
| InstallEnd.UndoneExactly | limine/limine.c:1246-1251 | when undoing reports success the disk is the original if and only if the log could undo the disk it started from |
| InstallEnd.EndSpec | limine/limine.c:1233-1251 | an install that gets to its end leaves on the disk what its script says and a log that restores the original; one that stops before can be undone unless its last write tore unlogged bytes |
| InstallEnd.SafeExactly | limine/limine.c:498-547 | an install can be undone under every fault script if and only if each write of its script is harmless to tear at its place in the run without faults |
| GptProbe.Probe | limine/limine.c:725-746 | under any faults the run of its reads: the first of two block sizes with a signed header behind the first block |
| GptProbe.ReadSecondary | limine/limine.c:748-764 | the secondary header where the first one says, and whether it is signed |
| GptBytes.FoundExactly | limine/limine.c:718-739 | blocks have 512 bytes if "EFI PART" is at 512, else 4096 if it is at 4096, else there is no GPT |
| MbrCheck.CheckMbr | limine/limine.c:892-1056 | all checks in order are, under any faults, the run of their script |
| MbrVerdict.PlainCheckExactly | limine/limine.c:892-1056 | unless it is forced the check passes if and only if every flag is valid, no partition starts below block 63 and nothing marks a file system; it writes nothing but one flag, if none is set |
| MbrVerdict.ForcedThenPlain | limine/limine.c:892-1056 | a forced check passes if and only if no partition starts below block 63, and leaves a disk that passes unforced, with an active partition |
| MbrBytes.PlainBytes | limine/limine.c:892-1048 | the unforced check passes if and only if bytes 446, 462, 478 and 494 are 0 or 0x80, every slot with a type starts at block 63 or later, and none of the six marks is at its place; byte 446 becomes 0x80 if no flag is set |
| MbrBytes.ForcedBytes | limine/limine.c:892-1048 | what a forced check leaves at every address: the highest bit of a flag, 0x80 in the first slot if none was active, zeros in what marks a file system, and everything else as it was |
| ForcedInstall.ForcedInstallExactly | limine/limine.c:890-1231 | on a disk without a GPT a forced install succeeds if and only if no partition starts below block 63 and there is room for the image and for what is probed |
| ForcedInstall.ForcedInstalled | limine/limine.c:890-1231 | and leaves that table in a sector that leads to all of stage 2, and everything else as the check leaves it |
| ForcedInstall.GptRefused | limine/limine.c:718-762 | a forced install on a GPT, and any install on one whose secondary header is unsigned, is refused without a write |
| MbrVerdict.CheckNear | limine/limine.c:892-1056 | it stays in the first 1082 bytes and writes at most eleven times |
| MbrVerdict.ConvertedPassesExactly | limine/limine.c:886-1056 | a converted table passes if and only if no converted partition starts below block 63, and gets its first slot made active |
| PartitionInstall.PartitionPlacesSpec | limine/limine.c:1095-1098 | the first half begins with the partition and the second at the first block the first leaves free, unless 64-bit addresses wrap |
| PartitionInstall.InPartitionExactly | limine/limine.c:1094-1098 | both halves end inside the partition if and only if it has as many blocks as the two of them need; nothing in the program asks |
| PartitionInstall.SmallPartitionOverrun | limine/limine.c:1094-1098 | the image carried overruns a partition of 36 blocks, and not one of 37 |
| PartitionInstall.PlaceInPartition | limine/limine.c:1070-1098 | under any faults the run of its script, which goes on if and only if the number is at most the count and the entry there is in use |
| GptBytes.EntryPlaceExactly | limine/limine.c:1079-1083 | the entry of the partition asked for is read from its place in the array while its offset has 32 bits |
| GptBytes.EntryPlaceStartsOver | limine/limine.c:1079-1083 | from there on the places start over: with entries of 128 bytes number 2^25, counted from 0, is read from entry 0 |
| PartitionInstall.PartitionFeasibleExactly | limine/limine.c:1070-1231 | without faults it succeeds if and only if the number is accepted and entry and halves lie on the disk |
| PartitionInstall.PartitionInstalled | limine/limine.c:1094-1231 | in a partition not at block 0: the sector leads to all of stage 2, and outside it and the halves everything is as before |
| PartitionInstall.BlockZeroOverSector | limine/limine.c:1094-1213 | an entry that starts at block 0 has the boot code overwritten by stage 2 |
| PastLast.PastLastInstalled | limine/limine.c:1074-1089 | a disk with signed headers on which the install for the number behind the last entry succeeds, and for no other number |
| GptInstall.PlaceOnGpt | limine/limine.c:1099-1231 | under any faults the run of the embedding and the boot phase; refused if and only if a used entry would be cut off |
| GptInstall.GptScriptSpec | limine/limine.c:1099-1231 | in sensible tables its script leaves the disk of `GptFinal.GptInstallSpec` |
| GptInstall.GptFeasibleExactly | limine/limine.c:1104-1231 | in sensible tables it succeeds without faults if and only if no used entry would be cut off, twice the unused entries that stay and eleven more writes fit the log, and all entries lie on the disk |
| GptInstall.CarriedImage | limine/limine.c:1119-1153 | for the image carried and entries of 128 bytes: always with blocks of 512 bytes; with 4096 if and only if the last used entry has number 805 or a higher one |
| GptInstall.Usual4096Infeasible | limine/limine.c:1122-1215 | with blocks of 4096 bytes and a secondary array in the four blocks before the last it never succeeds |
| GptInstall.UsedEntriesKept | limine/limine.c:1133-1153 | every used entry of the old array has all its bytes as before, in both arrays of the final disk |
| GptInstall.BothTablesSound | limine/limine.c:1156-1190 | the primary table is sound; the secondary one if and only if the used entries had the same CRC in both arrays before |
| GptInstall.OneByteUnsound | limine/limine.c:1156-1190 | one byte of difference in the used entries leaves the secondary table with a wrong checksum |
| GptInstall.BlocksUntouchedExactly | limine/limine.c:1119-1231 | no byte of a stretch of blocks is written if and only if it is apart from all seven places that are |
| GptInstall.UsualPartitionUntouched | limine/limine.c:1119-1231 | a partition between the two areas is left alone |
| GptInstall.SmallTableOverwritten | limine/limine.c:1119-1231 | with an array of 16 entries and a partition right behind it the first half goes into that partition |
| BiosInstall.PlaceWithGpt | limine/limine.c:770-1231 | on a GPT: converted and then behind the new master boot record, or into the partition asked for, or behind the arrays; under any faults the run of that script |
| BiosInstall.Place | limine/limine.c:725-1231 | everything before the last flush is, under any faults, the run of the script of the install |
| BiosInstall.Install | limine/limine.c:725-1251 | kept with the reversed log if and only if script and last flush get to the end, under any faults; otherwise the cleanup is undoing from exactly where the run stopped |
| ForcedInstall.ComputableExactly | limine/limine.c:1126-1131 | an embedding can be computed if and only if entries have a size, not larger in the secondary header, and stage 2 is empty or has a whole sector |
| ForcedInstall.DefinedExactly | limine/limine.c:716-1231 | where the behaviour of an install is defined: always without a GPT, forced or refused; behind the arrays if and only if the embedding can be computed; on an ISO image only if no fifth partition is stored behind its array |
| InstallResults.OpenAndInstall | limine/limine.c:703-1251 | from opening the device: kept only with the disk of the script and a log that restores the old one; reported as undone only with the old disk, unless some write of the script is harmful; on whole sectors without faults kept if and only if the script goes to its end and is feasible, and undone otherwise |
| PathResults.MbrInstallExactly | limine/limine.c:890-1231 | a disk without a GPT: succeeds if and only if the table passes and the disk has room for the image and the probing |
| PathResults.MbrInstalled | limine/limine.c:890-1231 | and leaves a sector that leads to all of stage 2, the table with an active partition, and everything else as before |
| PathResults.PartitionInstallExactly | limine/limine.c:725-1231 | into a partition: succeeds if and only if the number is accepted and headers, entry and halves lie on the disk |
| PathResults.EmbedInstallExactly | limine/limine.c:725-1231 | behind the arrays: succeeds if and only if headers and entries lie on the disk, no used entry would be cut off, and the unused ones that stay are few enough for the log |
| PathResults.EmbedInstalled | limine/limine.c:725-1231 | and leaves the disk of `GptFinal.GptInstallSpec` |
| IsoResults.IsoInstallExactly | limine/limine.c:725-1231 | on an ISO image whose GPT can be converted: succeeds if and only if everything read and cleared lies on the disk, no partition starts below block 63, and the image fits |
| IsoResults.IsoInstalled | limine/limine.c:770-1231 | and leaves a table that lists the used entries of the GPT in order, the first active, and a sector that leads to all of stage 2 |
| IsoResults.IsoSlots | limine/limine.c:766-1231 | byte by byte: slot `i` of the final table has the kind, start bytes and length of the `i`-th used entry, and the flag 0x80 if it is the first, else 0 |
| MbrSafety.MbrSafeExactly | limine/limine.c:498-547 | an install behind a master boot record can be undone under every fault script if and only if both halves, as far as the block in which each ends, are on the disk already |
| Automap.CrossingDefined | ezLibC/doom/am_map.c:914-957 | an end outside, with no side in common, is separated from the other end by the side it is cut at, so no division is by zero |
| Automap.CrossingSpec | ezLibC/doom/am_map.c:922-949 | the cut point lies in the box of the segment, and the bits it was cut for are gone |
| CArith.CDivTowardsZero | ezLibC/doom/am_map.c:930 | C division gives the whole number next to the exact quotient on the side of zero |
| Automap.CrossingTowards | ezLibC/doom/am_map.c:924-953 | the cut is at the first of top, bottom, right and left that the end is beyond; the divided coordinate lies between the first end and the exact crossing, less than one pixel short of it |
| Automap.StepClearsBits | ezLibC/doom/am_map.c:914-970 | unless the line is rejected a turn clears at least one outcode bit and sets none |
| Automap.CrossingNear | ezLibC/doom/am_map.c:922-949 | a cut point is at most one pixel each way further from a given line than both ends were |
| AutomapClip.TurnGoesOn | ezLibC/doom/am_map.c:914-973 | a turn keeps everything known about the line, or rejects it rightly; there is no fifth turn |
| AutomapCover.CrossingCovers | ezLibC/doom/am_map.c:922-949 | a turn cuts off no part of the true segment that is further inside the frame than the pixels it may miss by |
| AutomapCover.SharedShowsNone | ezLibC/doom/am_map.c:914-973 | ends with a common side show nothing that far inside the frame |
| AutomapClip.RejectedReach | ezLibC/doom/am_map.c:914-975 | no point of a rejected line is four pixels or more inside the frame |
| AutomapClip.ClipEnd | ezLibC/doom/am_map.c:917-969 | the body moves the first end that is outside and recomputes its outcode, as `AutomapClip.TurnExactly` describes |
| AutomapClip.TurnExactly | ezLibC/doom/am_map.c:917-969 | a turn leaves an end inside alone and moves the first end that is outside to its cut point |
| AutomapClip.CutTowardsStart | ezLibC/doom/am_map.c:914-975 | in a frame of 320 by 168 the line from (10, -1) to (7, 1) is cut at (9, 0), and the same line from the other end at (8, 0) |
| AutomapClip.ClipLoop | ezLibC/doom/am_map.c:914-975 | at most four turns; the result is inside the frame or shares a side |
| AutomapClip.ClipToFrame | ezLibC/doom/am_map.c:908-975 | a visible line ends inside the frame, in the box of the original and within four pixels of it, keeps an end that was inside, and is exact for horizontal and vertical lines; the result is that of the turns of `AutomapClip.TurnExactly`, one after the other |
| AutomapLine.MapToFrameExact | ezLibC/doom/am_map.c:103-103 | both shifts together round the scaled distance down |
| AutomapLine.FrameUpright | ezLibC/doom/am_map.c:105-106 | the window's corner is the frame's, right stays right and up is up |
| AutomapReject.DroppedExactly | ezLibC/doom/am_map.c:877-901 | for every window: a visible pixel can be lost to the reject on map coordinates if and only if its column or row is one that map lines beyond the right or upper edge reach |
| AutomapReject.ScaledWindowDrops | ezLibC/doom/am_map.c:293-303 | for the window the program computes: row 0 always, row 1 and the last column if and only if the scale is smaller than what dividing by it cuts off over height and width, and nothing else |
| AutomapReject.LinesDropped | ezLibC/doom/am_map.c:877-901 | two lines the program rejects, a vertical one in the last column and a horizontal one in row 1 |
| AutomapLine.ClipMline | ezLibC/doom/am_map.c:847-976 | both stages: rejected on the map, or clipped to exactly the result of the turns |
| AutomapLine.RejectedOnMap | ezLibC/doom/am_map.c:847-901 | the reject on the map: both ends above the window, below it, left of it or right of it |
| AutomapLine.MinorNearest | ezLibC/doom/am_map.c:1026-1053 | after `k` steps the minor offset `m` satisfies 2 times abs(k minor - m major) at most major, and of two as near it is the larger |
| AutomapLine.MinorStep | ezLibC/doom/am_map.c:1033-1039 | the decision variable tells exactly when the rounded offset grows, and keeps its meaning |
| AutomapLine.LineEnds | ezLibC/doom/am_map.c:1023-1032 | the first dot is one end and the last is the other |
| AutomapLine.LineBoxed | ezLibC/doom/am_map.c:1026-1054 | every dot lies in the box of the ends |
| AutomapLine.LineNear | ezLibC/doom/am_map.c:1026-1054 | no dot is more than half a pixel from the true line along the minor axis, in all eight directions |
| AutomapLine.LineConnected | ezLibC/doom/am_map.c:1026-1054 | each dot touches the one before it |
| AutomapLine.LineInFrame | ezLibC/doom/am_map.c:1010-1010 | every dot of a line with both ends in the frame has an index inside the buffer |
| AutomapLine.DotsExactly | ezLibC/doom/am_map.c:1026-1054 | a pixel has the line's colour if and only if it is one of its dots, and otherwise its old one |
| AutomapLine.StraightDots | ezLibC/doom/am_map.c:1026-1054 | a horizontal or vertical line covers exactly the pixels between its ends |
| AutomapLine.StraightClipExact | ezLibC/doom/am_map.c:914-1054 | clipping a horizontal or vertical line loses none of its pixels in the frame and adds none |
| AutomapLine.Canvas.DrawFlat | ezLibC/doom/am_map.c:1026-1040 | the loop terminates with exactly the dots of the line |
| AutomapLine.Canvas.DrawSteep | ezLibC/doom/am_map.c:1041-1055 | the same along the other axis |
| AutomapLine.Canvas.DrawFline | ezLibC/doom/am_map.c:983-1056 | draws the line if both ends are in the frame, and complains otherwise |
| AutomapLine.Canvas.DrawMline | ezLibC/doom/am_map.c:1061-1070 | the range guard never fires: what clipping lets through is drawn exactly, and nothing else changes |
| TicLoop.DeliveredOnce | ezLibC/doom/d_loop.c:672-684 | any part of a command that squashing clears reaches the game exactly once per command built, in order, for every `ticdup` |
| TicLoop.ChatAndSpecialOnce | ezLibC/doom/d_loop.c:672-684 | that is so for chat characters and for special buttons |
| TicLoop.DeliveredEach | ezLibC/doom/d_loop.c:797-817 | movement, consistancy check and ordinary buttons of a tic are in each of its `ticdup` runs, and the chat character and buttons of 128 and more in the first alone |
| TicLoop.QueuePush | ezLibC/doom/d_loop.c:189-191 | storing the next command disturbs no set still to be run |
| TicLoop.QueuePop | ezLibC/doom/d_loop.c:797-817 | changing the set just run disturbs no later one |
| TicLoop.Loop.Delivered | ezLibC/doom/d_loop.c:797-817 | in every state between calls the runs so far match the commands built, and building leads by at most three tics, or five in the old mode |
| TicLoop.Loop.StartGameLoop | ezLibC/doom/d_loop.c:305-308 | counting starts at the clock's time |
| TicLoop.Loop.BuildNewTic | ezLibC/doom/d_loop.c:136-194 | builds a command if and only if the lead is below 3, or 5 in the old mode |
| TicLoop.Loop.NetUpdate | ezLibC/doom/d_loop.c:203-250 | builds one command per tic of the clock since the last call, less the tics to skip, up to the lead; the rest of the skip is carried over |
| TicLoop.Loop.SinglePlayerClear | ezLibC/doom/d_loop.c:689-700 | afterwards the set shows the local player alone |
| TicLoop.SoloExactly | ezLibC/doom/d_loop.c:689-700 | of the eight players of such a set just the local one is in the game |
| TicLoop.Loop.TicdupSquash | ezLibC/doom/d_loop.c:672-684 | every player's command of the set is squashed in place, and nothing else |
| TicLoop.Loop.CheckedRun | ezLibC/doom/d_loop.c:801-816 | the second error cannot fire |
| TicLoop.Loop.RunSet | ezLibC/doom/d_loop.c:788-817 | the set run for tic `n` carries the command built for it, `ticdup` times |
| TicLoop.Loop.WaitForTics | ezLibC/doom/d_loop.c:765-784 | the first error cannot fire; the wait is left with enough tics, or for the menu at the first reading of the clock that is later than the tic in which the call began, and not before |
| TicLoop.Loop.CountsBounds | ezLibC/doom/d_loop.c:739-754 | the old mode runs the tics available, less the lead over the clock, and one more if the lead is at least two; so no more than is available or one tic more than the clock advanced, and no less than both allow |
| TicLoop.Loop.Decide | ezLibC/doom/d_loop.c:716-763 | the commands built by the clock, and the number of tics to run, at least one, with the readings it depends on |
| TicLoop.Loop.TryRunTics | ezLibC/doom/d_loop.c:706-821 | for every clock, mode and `ticdup` the invariant is kept and neither error fires; it runs exactly the tics that are due, or none if the wait is given up, which needs more of them due than were built; with single tics each call runs exactly one |
| Melt.TransposedTwice | ezLibC/doom/f_wipe.c:42-62 | transposing twice, the second time with the sides swapped, gives the picture back |
| Melt.TransposedUnique | ezLibC/doom/f_wipe.c:42-62 | a picture has only one transposed form |
| Melt.TransposedAt | ezLibC/doom/f_wipe.c:49-66 | row `r` and column `c` of one are column `r` and row `c` of the other |
| Melt.Transpose | ezLibC/doom/f_wipe.c:42-62 | the nested loops and the copy transpose in place |
| Melt.StepsSplit | ezLibC/doom/f_wipe.c:180-214 | ticks split across calls do what they do at once |
| Melt.RowsExactly | ezLibC/doom/f_wipe.c:180-214 | where a column is after every number of ticks: it waits, is at row 1, 3, 7, 15 and 31, then eight rows further with each tick, and stops at the end of the screen |
| Melt.FinishedExactly | ezLibC/doom/f_wipe.c:180-214 | a column is finished if and only if it has had the ticks it needs |
| Melt.NeededExactly | ezLibC/doom/f_wipe.c:180-214 | from offset y at most 0 on a screen of at least 31 rows it needs exactly -y + 5 + (height - 31) / 8 ticks, rounded up |
| Melt.NeededAtMost | ezLibC/doom/f_wipe.c:180-214 | on a lower screen -y + 5 ticks are enough |
| Melt.OneTickBehind | ezLibC/doom/f_wipe.c:180-214 | a column that starts one row above its neighbour is always one tick behind and never overtakes it |
| Melt.OffsetsJagged | ezLibC/doom/f_wipe.c:146-158 | the starting offsets lie in -15 to 0 and neighbours differ by at most 1 |
| Melt.OffsetsExactly | ezLibC/doom/f_wipe.c:152-158 | a column starts its random number modulo 3, less 1, away from its neighbour where that stays in -15 to 0, and otherwise level with it |
| Melt.MeltBounded | ezLibC/doom/f_wipe.c:146-214 | every column needs at most 20 + (height - 31) / 8 ticks, rounded up, and at most 20 on a lower screen |
| Melt.InitOffsets | ezLibC/doom/f_wipe.c:148-158 | the loop draws the offsets from the random numbers in order: the first is minus the number modulo 16, and each further one as `Melt.OffsetsExactly` says |
| Melt.PasteColumn | ezLibC/doom/f_wipe.c:193-209 | a stretch of a stored column goes down one column of the screen, and no other pixel changes |
| Melt.ColumnFalls | ezLibC/doom/f_wipe.c:189-209 | after both pastes the column shows the end screen above its new offset and the start screen pushed down below |
| Melt.MeltColumn | ezLibC/doom/f_wipe.c:182-211 | one step of one column keeps the picture invariant and leaves the other columns alone |
| Melt.MeltTick | ezLibC/doom/f_wipe.c:180-213 | one tick steps every column; something moved if and only if some column was unfinished |
| Melt.DoMelt | ezLibC/doom/f_wipe.c:163-216 | keeps the picture invariant over any number of ticks, and reports the end if and only if all columns were finished on entry or no tick was asked for |
| Melt.ColumnExactly | ezLibC/doom/f_wipe.c:182-211 | a column with offset `y` shows the end screen above row `y` and the start screen pushed down by `y` rows below it |
| Melt.FinishedShowsEnd | ezLibC/doom/f_wipe.c:182-216 | when all columns are finished the screen is the untransposed end screen |
| ScreenWipe.Wipe.StartScreen | ezLibC/doom/f_wipe.c:230-240 | the start screen is captured |
| ScreenWipe.Wipe.EndScreen | ezLibC/doom/f_wipe.c:242-253 | the end screen is captured and the start screen put back |
| ScreenWipe.Wipe.InitMelt | ezLibC/doom/f_wipe.c:132-161 | the picture invariant holds before the first tick |
| ScreenWipe.Wipe.Turn | ezLibC/doom/f_wipe.c:255-295 | a call with ticks reports the end if and only if the ticks of the calls before were enough for every column, and then the end screen stands |
| ScreenWipe.Wipe.MeltScreen | ezLibC/doom/f_wipe.c:255-295 | however the clock hands out positive ticks, the wipe terminates with the end screen |
| ColorFade.ApproachExactly | ezLibC/doom/f_wipe.c:90-111 | a byte stays between its value and its goal; its distance shrinks by exactly the ticks, however they are split |
| ColorFade.DoColorXForm | ezLibC/doom/f_wipe.c:74-118 | every byte approaches its goal; the end is reported if and only if the screens were equal on entry |
| ColorFade.FadedExactly | ezLibC/doom/f_wipe.c:74-118 | the end screen stands if and only if the ticks in all are enough for the byte with the longest way |
| ColorFade.Fade | ezLibC/doom/f_wipe.c:74-118 | for every list of ticks: the screen fades by the ticks of the calls made, and the end is reported if and only if the calls before the last were enough, and then the end screen stands; 255 are always enough |
| DemoFormat.CodecRoundTrip | ezLibC/doom/g_game.c:1898-1923 | a command comes back in the format's resolution, and its first byte is the marker if and only if its forward move is -128 |
| DemoFormat.CommandBytes | ezLibC/doom/g_game.c:1963-1980 | the bytes of a command in order: forward move, side move, turn with its lower byte first or its upper byte alone, buttons |
| DemoFormat.BytesRoundTrip | ezLibC/doom/g_game.c:1906-1922 | bytes read as a command are the bytes of that command |
| DemoFormat.LosslessExactly | ezLibC/doom/g_game.c:1909-1920 | nothing is lost if and only if turns are long or a multiple of 256 |
| DemoFormat.PlaysBack | ezLibC/doom/g_game.c:1898-1923 | playing back written commands gives all of them, then stops at the marker |
| DemoFormat.DecodesCommands | ezLibC/doom/g_game.c:1898-1923 | a demo with a marker has just the commands in front of it |
| DemoFormat.PlaysWhole | ezLibC/doom/g_game.c:1898-1923 | of whole commands followed by nothing, the marker or too few bytes just these commands are played, and the end is regular if and only if it is the marker |
| DemoFormat.AllBytesPlay | ezLibC/doom/g_game.c:1898-1923 | every sequence of bytes is of that kind |
| Demo.HeaderRoundTrip | ezLibC/doom/g_game.c:2074-2097 | the settings and the turn format read from a header are those written |
| Demo.HeaderLayout | ezLibC/doom/g_game.c:2074-2097 | the thirteen bytes of a header in order, the first 111 if turns are long |
| Demo.ReadMove | ezLibC/doom/g_game.c:1906-1922 | the reads in order decode one command and keep its other fields |
| Demo.FileDecodes | ezLibC/doom/g_game.c:2290-2293 | the file of a finished recording decodes to its game and its commands |
| Demo.RecordDemo | ezLibC/doom/g_game.c:2010-2098 | from a buffer of any number of KiB: the recording starts with the header and room for another command, or has no buffer if and only if that number is not positive |
| Demo.Recorder.CheckDemoStatus | ezLibC/doom/g_game.c:2288-2296 | the marker still fits, and the file is header, commands and marker |
| Demo.Recorder.PutMove | ezLibC/doom/g_game.c:1963-1980 | the bytes of the command are inside the buffer, and nothing before them changes |
| Demo.Recorder.IncreaseDemoBuffer | ezLibC/doom/g_game.c:1926-1954 | a buffer of twice the size with the same contents takes over |
| Demo.Recorder.WriteDemoTiccmd | ezLibC/doom/g_game.c:1956-2003 | the command recorded is the one the game goes on with; recording ends if and only if the player quits, the original buffer is full or the forward move is -128; all writes stay in the buffer across doublings |
| Demo.DoPlayDemo | ezLibC/doom/g_game.c:2152-2203 | of any lump with a whole header: the settings and the whole of the commands, with an end marker or without; turns are long if the first byte is 111, short if it is that of the game, and with any other version as they were before |
| Demo.Player.ReadDemoTiccmd | ezLibC/doom/g_game.c:1898-1923 | the next command of the demo, or the end at the marker, or a read behind the last byte exactly where the bytes run out before a marker |
| Demo.Player.PlayAll | ezLibC/doom/g_game.c:1898-1923 | playing terminates with all commands of the demo, regularly if and only if it has a marker |
| Demo.Replay | ezLibC/doom/g_game.c:1898-2003 | a finished recording plays back to exactly the commands the game acted on |
| Demo.CapacityExactly | ezLibC/doom/g_game.c:1985-1990 | the next command begins in the last 15 bytes of the original buffer if and only if its capacity has been recorded |
| Demo.Record | ezLibC/doom/g_game.c:1956-2003 | of any list of commands exactly those before the first forward move of -128 are recorded, and with the original limit no more than the buffer's capacity |
| Demo.RecordAndReplay | ezLibC/doom/g_game.c:1898-2097 | recording any list and playing it back gives exactly those |
| Demo.AllSurviveExactly | ezLibC/doom/g_game.c:1898-1906 | every command survives if and only if no forward move is -128 |
| Turning.RoundingKept | ezLibC/doom/g_game.c:580-596 | the rounded turn is a multiple of 256, the carry stays in -128 to 127, and nothing is lost up to full turns |
| Turning.RoundKeeps | ezLibC/doom/g_game.c:580-596 | over a whole run the turns given and the carry add up to the turns asked for, up to full turns |
| Turning.Rounder.Round | ezLibC/doom/g_game.c:580-596 | the static carry keeps that, and exactly when nothing wraps |
| Turning.BuildMove | ezLibC/doom/g_game.c:553-563 | with a limit below 128 a move within it is stored as it is and any other as the limit on its side, so never as the marker |
| Turning.MarkerExactly | ezLibC/doom/g_game.c:553-563 | some forward move is stored as the marker if and only if the turbo scale is at least 256 |
| ChatLine.InputText.AddChar | ezLibC/doom/hu_lib.c:62-78 | appends below 80 characters, refuses at 80, and keeps the terminator |
| ChatLine.InputText.DelChar | ezLibC/doom/hu_lib.c:80-91 | removes the last character of a line that is not empty, the margin notwithstanding |
| ChatLine.InputText.DelCharAfterMargin | ezLibC/doom/hu_lib.c:278-282 | never deletes past the left margin |
| ChatLine.InputText.EraseLine | ezLibC/doom/hu_lib.c:284-288 | leaves exactly the protected part |
| ChatLine.InputText.AddPrefix | ezLibC/doom/hu_lib.c:297-305 | as much of the prefix as fits, all of it protected |
| ChatLine.InputText.Reset | ezLibC/doom/hu_lib.c:291-295 | empty again, margin included |
| ChatLine.InputText.KeyIn | ezLibC/doom/hu_lib.c:309-327 | the line after a key, and whether it was eaten; margin at most length at most 80 always |
| ChatLine.RingPush | ezLibC/doom/hu_stuff.c:482-493 | a character stored at the head is the last one waiting |
| ChatLine.RingPop | ezLibC/doom/hu_stuff.c:495-510 | moving the tail drops the oldest character alone |
| ChatLine.ChatQueue.Queue | ezLibC/doom/hu_stuff.c:482-493 | appends, or drops the new character if and only if 127 are waiting |
| ChatLine.ChatQueue.Dequeue | ezLibC/doom/hu_stuff.c:495-510 | the oldest character, or 0 and no change |
| Chat.LinesGrow | ezLibC/doom/hu_stuff.c:432-470 | lines once heard stay: a part of the stream gives the first of its lines |
| Chat.HeardWell | ezLibC/doom/hu_lib.c:309-327 | the line being heard has at most 80 characters, all printable |
| ChatKeys.TypedExactly | ezLibC/doom/hu_lib.c:309-327 | small letters are stored as capitals, the characters from 32 to 95 as they are, up to 80; 127 takes the last one away; nothing else changes the text |
| ChatKeys.HearExactly | ezLibC/doom/hu_stuff.c:446-466 | characters of at most 5 and of 128 and more are destinations, 13 ends a line, and all others are typed |
| ChatKeys.SmallLine | ezLibC/doom/hu_stuff.c:432-470 | 5, h, x, 127, i and 13 make the line HI to everybody |
| Chat.ShownExactly | ezLibC/doom/hu_stuff.c:448-460 | a player is shown the texts of just those lines, in order, that are not empty and go to him or to everybody |
| Chat.Sender.Open | ezLibC/doom/hu_stuff.c:550-568 | opening a line keeps both sides in step if and only if the destination is queued or was the last one heard |
| Chat.Sender.TypeKey | ezLibC/doom/hu_stuff.c:612-636 | a key keeps both sides in step if and only if it is neither a dropped key that would have done something nor Escape on a line that is not empty |
| Chat.MacroHeard | ezLibC/doom/hu_stuff.c:598-604 | a macro means an Enter, its characters and an Enter to the listener, and leaves no unfinished line |
| Chat.LineCount | ezLibC/doom/hu_stuff.c:598-604 | whatever it contains, a stream finishes as many lines as it has Enters and takes none back |
| Chat.PlainMacro | ezLibC/doom/hu_stuff.c:598-604 | a macro of keys alone means the line typed before it and a line of its own |
| Chat.Sender.SendMacro | ezLibC/doom/hu_stuff.c:589-611 | any macro keeps both sides in step unless a character is dropped; the unfinished line is sent too |
| Chat.Sender.NumPlayers | ezLibC/doom/hu_stuff.c:526-528 | the loop counts the players in the game |
| ChatKeys.PlayersExactly | ezLibC/doom/hu_stuff.c:526-528 | that is more than two if and only if three of the four are in the game |
| Chat.Sender.OpenPrivate | ezLibC/doom/hu_stuff.c:556-585 | opens a line to the first other player in the game with that key, if there is one |
| ChatKeys.AddressedExactly | ezLibC/doom/hu_stuff.c:556-585 | a key addresses a player if and only if it is his, he is in the game and somebody else, and that holds of none with a smaller number |
| Chat.Sender.Responder | ezLibC/doom/hu_stuff.c:512-640 | every key event, with Shift, Alt, the refresh key, games without a net and all macros: what it does, whether it is eaten, and the lines it finishes; both sides stay in step but for a dropped key or Escape on text; what is sent is what is queued, in order |
| ChatKeys.KeysExactly | ezLibC/doom/hu_stuff.c:530-640 | which events set Alt, refresh the message, type which character and send which macro |
| ChatKeys.EatenExactly | ezLibC/doom/hu_stuff.c:530-640 | an event goes no further if and only if it refreshes the message, opens a line, sends a macro, or types a key that is stored, takes a character away or ends the line |
| ChatKeys.OpensExactly | ezLibC/doom/hu_stuff.c:550-588 | which events open a line, and to whom: to everybody, or with more than two players to the one addressed |
| Chat.Receiver.Ticker | ezLibC/doom/hu_stuff.c:432-470 | the receiver's line, destination and messages are always those the characters so far mean; `Chat.ShownExactly` and `ChatKeys.HearExactly` say what that is |
| Chat.Link.Key | ezLibC/doom/hu_stuff.c:512-640 | an event at the sender keeps the channel invariant |
| Chat.Link.BuildTic | ezLibC/doom/hu_stuff.c:495-510 | a tic carries the oldest character and loses none |
| Chat.Link.RunTic | ezLibC/doom/hu_stuff.c:432-470 | a tic run hands one character over and loses none |
| Chat.Link.Agreement | ezLibC/doom/hu_stuff.c:432-470 | at every moment the receiver has the first of the sender's lines; with nothing on its way, all of them with their texts, and the same unfinished line |
| Chat.Link.Drain | ezLibC/doom/hu_stuff.c:432-510 | enough tics deliver everything |
| Chat.Link.Settle | ezLibC/doom/hu_stuff.c:432-510 | then the messages are, in order, exactly the texts of those lines of the sender that are not empty and go to this player or to everybody |
| Chat.EscapeLeftover | ezLibC/doom/hu_stuff.c:634-636 | after Escape the next line is heard behind the text left over, where the sender has its keys alone |
| Chat.TypedBehind | ezLibC/doom/hu_lib.c:278-327 | text left over loses one character for each Backspace on the empty line, as long as no key is refused by a full line |
| Chat.EscapeExactly | ezLibC/doom/hu_stuff.c:634-636 | unless a key is refused by a full line the listener gets the line that was meant if and only if its Backspaces on the empty line are at least as many as the characters left over |

## Left out

- Installer.Device.LoadUndo: what happens to memory once the loop is behind the array is outside the model.
- Mbr.GatherParts: it tells that addresses were stored behind the array, and `BiosInstall.Install` then ends as undefined; what the store overwrites is outside the model.
- GptEmbed.Embed: asks for entries of at least one byte, and not larger in the secondary header than in the first, because the program divides by the size and writes from a buffer of the first size; `BiosInstall.Install` ends as undefined otherwise.
- GptInstall.GptScriptSpec: says what is on the final disk for entries of one size and areas of 32 blocks that lie apart from each other and from the headers; for other tables `GptInstall.PlaceOnGpt` says only which writes are made.
- BootSector.WriteStages: asks for an image whose first half lies inside it, as `BootSector.SplitsExactly` describes; otherwise the program reads behind its own image.
- Demo.RecordDemo: what a recording without a buffer overwrites is outside the model.
- Demo.DoPlayDemo: what a read behind the last byte yields is outside the model.
- AutomapClip.ClipToFrame: products and quotients are unbounded integers; overflow of the 32-bit products is not modelled.
- TicLoop.Loop.TryRunTics: the wait loop is observed for a given number of turns, because an arbitrary clock may stand still; callbacks may not call back into the scheduler.
- TicLoop.Loop.Decide: times are unbounded integers.
- Turning.BuildMove: the collection of movement from keyboard, mouse and joystick is not modelled; any integers may be the sums.
- Chat.Link.Key: a net game seen from one sender and one receiver; with more players each pair is such a link. The messages a player gets for talking to himself are left out.
- Chat.EscapeExactly: asks that no key of the next line is refused because it is full with the text left over; `Chat.EscapeLeftover` says what is heard in every case.
- Failing `malloc`, stdio errors other than a failed transfer, `fclose`, messages and the `quiet` option.
- Devices whose length is not a multiple of the block size, in the results on success without faults.
- In the installer, argument parsing, `enroll_config`, big-endian hosts and the choice of random bytes.
- In the tic scheduler, network play: drone mode, `OldNetSync`, `D_ReceiveTic`.
- In the automap, everything but the drawing of lines; `AM_findMinMaxBoundaries` does not compute a bounding box for every order of points, and no claim is made about it.
- In the wipe, the menu drawn over the screen between two calls, the allocator, and the pixels inside a pair.
- In demos, reading and writing of files, time demos, and the game itself.
- Simple rings of events and key queues, ports, sound, drawing of patches and data tables, which would only add easy members.
