# A self-writing recorder: model and proofs

The firmware records pressure and temperature to a flash chip and shows the recordings to a PC as a read-only USB disk;
a bootloader in the same tree takes firmware updates through a fake disk. This project models the parts of it that are
logic rather than hardware, and proves what they promise:

- **USB mass storage** (`Wrappers`, `TransportSpec`, `ScsiSpec`, `Transport`, `ReadPackets`,
  `ZlpExample`): the Bulk-Only Transport state machine over
  one 512-byte buffer and an endpoint that may block at any call, and the SCSI Read command on top of it. The claims are
  about whole sessions: every interleaving of polls with host packets, under every schedule of blocking.
- **The virtual FAT32 disk** (`FatTree`, `EmfatSpec`, `Emfat`, `FatReader`, `FatNames`, `FatExamples`, `FatTime`): a table of rows
  annotated with levels is linked into a tree in place, given clusters, and shown sector by sector. An independent
  FAT32 reader, which knows only the sectors, finds the table's tree again. The packed dates of the records are unpacked
  to the Unix time they came from.
- **The bootloader** (`Flash`, `Uf2`, `GhostFat`): a write-back page buffer over NOR flash is a plain byte array, and a
  UF2 image copied block by block in any order is in flash, byte for byte, when the restart is armed.
- **Bit fields** (`PackingMath`, `PackingBig`, `PackingLittle`): the byte loops that read and write fields which begin and
  end inside bytes are integer shifts and remainders.
- **The recorder** (`RecorderSpec`, `Recorder`, `DiffCoding`): the loop that sleeps to the next event is a simulation of
  every millisecond, loses exactly the values due inside its own passes, otherwise keeps a timetable stated without it,
  and so gives the order that a reader needs to undo the difference coding of a page.
- **Page allocation** (`StorageSpec`, `Storage`, `Qspi`, `StoredRecords`): a search behind a cache that may be stale or
  unreachable never leads to a page being written twice, and pages programmed in pieces through a segmented address
  hold exactly their record.
- **Timer registers** (`Timer`): a count is split over a prescaler and a reload register with a proved error bound.

Code that changes state is modelled by classes and methods that change state (`Transport`, `Emfat`, `Flash`, `GhostFat`,
`Recorder`, `Storage`, `Qspi`, the packing loops); each method's contract ties the new state to a function of the old,
and the run-level claims are lemmas about those functions (`TransportSpec`, `ScsiSpec`, `EmfatSpec`, `RecorderSpec`,
`StorageSpec`). `Bytes` holds what they share: words and bytes, bitwise operations, and writing into a sequence.

The environment is a parameter: when the endpoint blocks (`Wire.ready`), what the device holds (`Scsi.disk`), what
reading files calls (`Volume.callback`), how long passes take and when pages fill (`World`), which locks are obtained in
time and how writes end (`StorageSpec.Event`), and which chip commands fail.

Standards: USB Mass Storage Class Bulk-Only Transport 1.0, sections 5.1, 5.2, 5.3 and 6.7; Microsoft FAT32 File System
Specification, sections "Boot Sector and BPB", "FAT Data Structure" and "FAT Directory Structure".

## Model

| member | source | states |
|---|---|---|
| ScsiSpec.SessionAnswersInOrder | lib/stm32-usb.rs.saved_copy/firmware/usbd_scsi/src/scsi/scsi.rs:105-407 | For every schedule of blocking and every interleaving of polls with Read commands, the host has received a prefix of: each command's blocks in order, then one status wrapper with residue = length asked for minus 512 per block; no block is read twice and no command executed a second time |
| ReadPackets.RequestsAnsweredInOrder | lib/stm32-usb.rs.saved_copy/firmware/usbd_scsi/src/scsi/commands/read.rs:16-110 | The same from the packets' bytes: for READ(6), READ(10) and READ(12) packets written out byte by byte, and every schedule of blocking and interleaving of polls, the host has received a prefix of each request's blocks and its status, also written out byte by byte, and an idle device has sent all of it and read each block once |
| ReadPackets.RequestsAreServed | lib/stm32-usb.rs.saved_copy/firmware/usbd_scsi/src/scsi/scsi.rs:105-407 | An idle device that does not block serves any such requests: after some polls it is idle again and has sent exactly what is owed for them and read exactly their blocks |
| ReadPackets.PacketMeans | lib/stm32-usb.rs.saved_copy/firmware/usbd_scsi/src/scsi/commands/read.rs:16-110 | The first block and the count are high byte first, three bytes without the top three bits, or four; tag and length are low byte first; the status carries the tag, the length minus 512 per block, and 0 |
| ReadPackets.BlockInTransfer | lib/stm32-usb.rs.saved_copy/firmware/usbd_scsi/src/scsi/scsi.rs:188-208 | Bytes 512 j to 512 j + 511 of a transfer are block first + j |
| ScsiSpec.EveryCommandIsAnswered | lib/stm32-usb.rs.saved_copy/firmware/usbd_scsi/src/scsi/scsi.rs:383-407 | Once the endpoints stop blocking, at most one poll per byte still owed, and one more, leaves every command answered in full |
| ScsiSpec.InvMeans | lib/stm32-usb.rs.saved_copy/firmware/usbd_scsi/src/scsi/scsi.rs:188-208 | In every state that keeps the invariant, the stream is a prefix of the answers, the blocks were read in the order asked for, and an idle device has answered everything it took |
| ScsiSpec.UpdateProgresses | lib/stm32-usb.rs.saved_copy/firmware/usbd_scsi/src/scsi/scsi.rs:383-407 | An unblocked poll sends at least one byte unless every command is answered |
| ScsiSpec.WholeWrapperKept | lib/stm32-usb.rs.saved_copy/firmware/usbd_bulk_only_transport/src/bulk_only_transport/command_block_wrapper.rs:91-107 | A whole command wrapper that arrives in an empty buffer survives resynchronisation |
| TransportSpec.EveryRunKeepsInv | lib/stm32-usb.rs.saved_copy/firmware/usbd_bulk_only_transport/src/bulk_only_transport/bulk_only_transport.rs:187-556 | In every reachable state, under any interleaving of host packets, polls, command-layer calls and resets: indices in order and in range; towards the host what was sent and what is pending are, in order, what was queued; residue + bytes sent = length asked for; the status phase sends the packed wrapper of the end of the data phase |
| TransportSpec.HandedOutInOrder | lib/stm32-usb.rs.saved_copy/firmware/usbd_bulk_only_transport/src/bulk_only_transport/bulk_only_transport.rs:353-377 | Over every run in which the command layer only takes: the packets of a data phase from the host are, in order, the bytes handed out and then the bytes pending, and the residue is what is still to come; when the status goes out all of them were handed out, and no fewer than announced |
| TransportSpec.CommandEndsWithOneReport | lib/stm32-usb.rs.saved_copy/firmware/usbd_bulk_only_transport/src/bulk_only_transport/bulk_only_transport.rs:446-470 | The transport goes back to waiting only when the host has received a prefix of the bytes queued and then exactly one 13-byte wrapper with the command's tag, its status, and a residue that is exactly what was not sent |
| TransportSpec.EndReportsResidue | lib/stm32-usb.rs.saved_copy/firmware/usbd_bulk_only_transport/src/bulk_only_transport/bulk_only_transport.rs:438-470 | The wrapper that goes out carries the tag of the command and the residue and status of the step that ends the data phase |
| TransportSpec.ReportIsOfTheEnd | lib/stm32-usb.rs.saved_copy/firmware/usbd_bulk_only_transport/src/bulk_only_transport/bulk_only_transport.rs:547-556 | No later step of the status phase changes what is reported or counts as queued |
| TransportSpec.FlushMovesBytes | lib/stm32-usb.rs.saved_copy/firmware/usbd_bulk_only_transport/src/bulk_only_transport/bulk_only_transport.rs:379-422 | Flushing moves bytes to the host in order, changes residue and stream by the same amount, and drops bytes only when the residue runs out first |
| TransportSpec.ZlpIffLastPacketFull | lib/stm32-usb.rs.saved_copy/firmware/usbd_bulk_only_transport/src/bulk_only_transport/bulk_only_transport.rs:446-470 | The packet that ends a data phase is empty exactly when the last packet was full and the phase was towards the host; so it is empty only if something was left of the residue, unless the last packet was full towards the host and nothing was left |
| ZlpExample.WholeReadSendsEmptyPacket | lib/stm32-usb.rs.saved_copy/firmware/usbd_bulk_only_transport/src/bulk_only_transport/bulk_only_transport.rs:446-470 | A Read of one block with length 512 over a 64-byte endpoint: after five polls the host has eight full packets with all it asked for, an empty one, and the status wrapper |
| Transport.BulkOnlyTransport.SendPacket | lib/stm32-usb.rs.saved_copy/firmware/usbd_bulk_only_transport/src/bulk_only_transport/bulk_only_transport.rs:387-421 | The in-place buffer with its two indices sends, advances and compacts as the byte queue of the specification does |
| Transport.BulkOnlyTransport.Flush | lib/stm32-usb.rs.saved_copy/firmware/usbd_bulk_only_transport/src/bulk_only_transport/bulk_only_transport.rs:379-422 | The buffer in place refines Flush of the specification, result and new state |
| Transport.BulkOnlyTransport.Read | lib/stm32-usb.rs.saved_copy/firmware/usbd_bulk_only_transport/src/bulk_only_transport/bulk_only_transport.rs:187-247 | Polling the endpoint that receives refines Read of the specification in every state |
| Transport.BulkOnlyTransport.Write | lib/stm32-usb.rs.saved_copy/firmware/usbd_bulk_only_transport/src/bulk_only_transport/bulk_only_transport.rs:195-202 | Polling the endpoint that sends refines Write of the specification in every state |
| Transport.BulkOnlyTransport.TakeBufferSpace | lib/stm32-usb.rs.saved_copy/firmware/usbd_bulk_only_transport/src/bulk_only_transport/bulk_only_transport.rs:329-347 | Hands out the next len bytes of the buffer exactly if that many are left behind those in use, and otherwise changes nothing |
| Transport.BulkOnlyTransport.TakeBufferedData | lib/stm32-usb.rs.saved_copy/firmware/usbd_bulk_only_transport/src/bulk_only_transport/bulk_only_transport.rs:353-377 | Refines Take, whose contract says: the bytes handed out and then those kept are those that were pending; as many as asked for, or all there are if that is allowed; none exactly when there are too few and it is not |
| Transport.ScsiDevice.Update | lib/stm32-usb.rs.saved_copy/firmware/usbd_scsi/src/scsi/scsi.rs:383-407 | A poll refines Update of the specification for every command, including the early return after one that cannot be parsed, and keeps the session invariant where that holds |
| Wrappers.TruncateToSignature | lib/stm32-usb.rs.saved_copy/firmware/usbd_bulk_only_transport/src/bulk_only_transport/command_block_wrapper.rs:91-107 | The in-place shift leaves Resync of the buffer: an unmodified suffix that begins with the signature, or has at most three bytes |
| Wrappers.SignatureKeptIff | lib/stm32-usb.rs.saved_copy/firmware/usbd_bulk_only_transport/src/bulk_only_transport/command_block_wrapper.rs:71-107 | The first signature is kept if and only if at least one byte follows it |
| Wrappers.CswReadBack | lib/stm32-usb.rs.saved_copy/firmware/usbd_bulk_only_transport/src/bulk_only_transport/command_status_wrapper.rs:13-40 | A host reads the bytes 55 53 42 53, the tag, the residue, and 0, 1 or 2 for success, failure or a phase error |
| FatTree.InitEntries | lib/emfat/emfat-src/emfat.c:221-268 | Accepts exactly the tables whose levels denote a tree, and then links them, in place, into that tree: parent, first child, next sibling, and the count of children but the first |
| FatTree.LinksListChildren | lib/emfat/emfat-src/emfat.c:247-262 | Following the first-child link and then next links lists exactly the rows whose parent this is, in table order |
| FatTree.ParentIsDirectoryAbove | lib/emfat/emfat-src/emfat.c:221-268 | In an accepted table every row but the first has a parent, which is a directory one level up |
| Emfat.Init | lib/emfat/emfat-src/emfat.c:289-341 | Succeeds exactly for acceptable tables and then makes the volume of the table: linked, with clusters laid out, FAT sized |
| EmfatSpec.VolumeIsLaid | lib/emfat/emfat-src/emfat.c:302-332 | Every row's clusters follow those reserved by the row before it, and its links are those of the tree |
| Emfat.RangesPartitionDisk | lib/emfat/emfat-src/emfat.c:302-322 | The reserved ranges partition the clusters 2 .. num_clust + 1 |
| Emfat.Emfat.FindEntry | lib/emfat/emfat-src/emfat.c:403-423 | The search finds the one owner of a cluster, whichever row it starts from |
| Emfat.Emfat.ReadFatSector | lib/emfat/emfat-src/emfat.c:437-491 | The sector is the words of its 128 clusters, whatever row was found last |
| Emfat.Emfat.FillDirSector | lib/emfat/emfat-src/emfat.c:545-591 | The sector is the header records and children that start at record 16 * rel, padded with zeros |
| Emfat.Emfat.FillEntry | lib/emfat/emfat-src/emfat.c:493-543 | One more record after those the sector holds, its short name made by the search for the last dot |
| Emfat.Emfat.ReadDataSector | lib/emfat/emfat-src/emfat.c:593-627 | A data sector is that of the cluster's owner: directory records, or the callback at the file's offset plus the place in the file |
| Emfat.Emfat.Read | lib/emfat/emfat-src/emfat.c:629-656 | Reading any number of sectors gives, for each, what its number alone determines: neither earlier reads nor the row found last show |
| EmfatSpec.EachSector | lib/emfat/emfat-src/emfat.c:629-656 | A read of n sectors equals n reads of one |
| EmfatSpec.ChsRoundTrip | lib/emfat/emfat-src/emfat.c:270-287 | Below cylinder 1024 the three bytes of the partition table name the sector they were made from |
| FatReader.DiskShowsTheTable | lib/emfat/emfat-src/emfat.c:289-656 | A FAT32 reader that starts at the partition table finds the table's tree, at every depth: directories with their children in table order, files with their size and each sector from its callback |
| FatNames.DiskShowsNames | lib/emfat/emfat-src/emfat.c:289-656 | The same by a relation that names none of the functions that make the disk: every directory with its children in table order, each under eleven characters that are those of its name, raised and cut, and every file with its size, its sectors from its callback or zeros, in as few clusters as hold it |
| FatNames.ShortNameShown | lib/emfat/emfat-src/emfat.c:509-536 | Of a file name, eight characters before the last dot and three after it, a to z raised, blanks after the end; of a directory or a name without a dot, eight characters and three blanks |
| FatNames.OneName | lib/emfat/emfat-src/emfat.c:509-536 | No other eleven characters do |
| FatNames.StemAndExtension | lib/emfat/emfat-src/emfat.c:509-536 | For every stem and every extension without a dot |
| FatNames.ChildSlot | lib/emfat/emfat-src/emfat.c:493-591 | After one header record in the root and two elsewhere, each slot of a directory shows the next child: name, attributes, time and date of creation and of the last change, date of the last access, cluster and size, each at its bytes |
| FatNames.LabelSlot | lib/emfat/emfat-src/emfat.c:553-557 | The root begins with the volume label |
| FatNames.DotSlots | lib/emfat/emfat-src/emfat.c:558-563 | Every other directory begins with a record of itself, with its own cluster, and one of the directory it is in, with that one's cluster |
| FatNames.SlotsAfter | lib/emfat/emfat-src/emfat.c:545-591 | The slots after the last child are zeros |
| FatNames.ChildrenInAre | lib/emfat/emfat-src/emfat.c:221-268 | The children of a row are, each once and in order, the rows for which it is the closest earlier row with a smaller level |
| FatNames.PartitionTable | lib/emfat/emfat-src/emfat.c:344-359 | The bytes of the partition table: type, start, size, signature, and the two addresses by head, sector and cylinder |
| FatNames.InformationSector | lib/emfat/emfat-src/emfat.c:425-435 | The bytes of the information sector: signatures, free clusters, next cluster |
| FatReader.WholeDiskFound | lib/emfat/emfat-src/emfat.c:289-656 | With a depth past the greatest level nothing is cut off from that tree, and every file has the sectors for all its bytes |
| FatReader.FileSectorFound | lib/emfat/emfat-src/emfat.c:593-627 | Sector j of a file, found through its chain, is the callback at the file's offset + 512 * j |
| FatReader.ChainIsExactIff | lib/emfat/emfat-src/emfat.c:329-332 | Following the FAT from a row's first cluster gives exactly the clusters it uses, if and only if the row does not straddle the end of a FAT that is one sector too short |
| FatReader.ReservedIsFree | lib/emfat/emfat-src/emfat.c:437-491 | The clusters that a file reserves and does not use are free in the FAT |
| FatReader.FatCoversDiskIff | lib/emfat/emfat-src/emfat.c:329-331 | The FAT, sized without its two reserved words, covers n clusters if and only if n mod 128 is neither 0 nor 127 |
| FatReader.DirectoryIsWholeIff | lib/emfat/emfat-src/emfat.c:545-616 | A directory shows all its records if and only if there are at most 128 |
| FatReader.DirectoryLists | lib/emfat/emfat-src/emfat.c:545-591 | Listing such a directory through the FAT gives its children in table order, each with name, kind, first cluster and size |
| FatExamples.FatTooShort | lib/emfat/emfat-src/emfat.c:329-331 | The table of a root directory and one file of 127 clusters is accepted, and the chain of its file ends early |
| FatExamples.DirectoryTooLong | lib/emfat/emfat-src/emfat.c:598-616 | The table of a root directory with 128 files is accepted, and one of its 129 records is not shown |
| FatTime.Calendar.CmaTimeFromUnix | lib/emfat/emfat-src/emfat.c:703-750 | Unpacking the packed time gives a calendar date that is the input rounded down to an even second, and it is the Gregorian date if and only if the input is before March 2100; the month table is put back |
| FatTime.GregorianIff | lib/emfat/emfat-src/emfat.c:703-712 | The calendar with a leap year every four years names the Gregorian date exactly for the seconds before 4107542400 |
| FatTime.DecodeEncode | lib/emfat/emfat-src/emfat.h:93-100 | The packed fields do not overlap: unpacking gives the stamp back but for an odd second |
| Flash.FlashWrapper.WriteBytes | lib/stm32-usb.rs.saved_copy/firmware/usb_bootloader/src/flash.rs:64-94 | Over any number of pages the flash becomes what it would hold with the loaded page written back, with the bytes written at the address, cut at the end of the range; the result, and which page is loaded then, are those of the arguments; on success the buffer equals its flash page, and after an error if and only if that page begins with the half word at the end of the range |
| Flash.FlashWrapper.FlushPage | lib/stm32-usb.rs.saved_copy/firmware/usb_bootloader/src/bin/msc.rs:279-328 | The page ends up equal to the buffer whatever it held, nothing else changes, and it is erased exactly when some bit must go from 0 to 1 |
| Flash.FlashWrapper.ComparePage | lib/stm32-usb.rs.saved_copy/firmware/usb_bootloader/src/bin/msc.rs:282-307 | The byte loop finds an erase needed exactly when AND-programming cannot give the buffer, and nothing needed exactly when the page already equals it |
| Flash.FlashWrapper.WritePage | lib/stm32-usb.rs.saved_copy/firmware/usb_bootloader/src/bin/msc.rs:223-277 | Writes the buffer, exactly if every bit it sets is still set in the flash; otherwise a write error |
| Flash.FlashWrapper.ReadPage | lib/stm32-usb.rs.saved_copy/firmware/usb_bootloader/src/bin/msc.rs:203-221 | Loads exactly the aligned pages inside the range; on an error the loaded page stays, and only the address at the end of the range changes the buffer |
| Flash.PageAddressIs | lib/stm32-usb.rs.saved_copy/firmware/usb_bootloader/src/flash.rs:51-53 | The mask rounds an address down to a multiple of the page size |
| Uf2.ParseOfPack | lib/stm32-usb.rs.saved_copy/firmware/uf2_block/src/lib.rs:170-183 | Parsing a packed block gives the block |
| Uf2.PackOfParse | lib/stm32-usb.rs.saved_copy/firmware/uf2_block/src/lib.rs:170-183 | Packing what was parsed gives back all 512 bytes |
| Uf2.ConvertedBlock | lib/stm32-usb.rs.saved_copy/firmware/uf2_util/src/lib.rs:35-94 | Block i of a converted image parses to chunk i of the image, its address, its number and the total |
| Uf2.ConvertedBytes | lib/stm32-usb.rs.saved_copy/firmware/uf2_util/src/lib.rs:35-94 | A converted image byte by byte: with size the greatest multiple of the page size up to 476, block i has the bytes 55 46 32 0A 57 51 5D 9E, flags 0, base + size * i, its length, i, the number of blocks (length of the image over size, rounded up), 0, the bytes of the image from size * i on, zeros, and 30 6F B1 0A |
| Uf2.PackIs | lib/stm32-usb.rs.saved_copy/firmware/uf2_block/src/lib.rs:80-107 | The bytes of every block, written out |
| GhostFat.AnyOrderProgramsTheImage | lib/stm32-usb.rs.saved_copy/firmware/usb_bootloader/src/ghost_fat.rs:376-426 | When all blocks of a converted image have been copied, in any order and amid any other traffic, flash holds the image byte for byte and is otherwise unchanged; only the last copy arms the restart |
| GhostFat.UpdateUnderWay | lib/stm32-usb.rs.saved_copy/firmware/usb_bootloader/src/ghost_fat.rs:376-426 | At every moment before, flash is the old flash overlaid with the blocks copied so far |
| GhostFat.RestartsOnceDelayPassed | lib/stm32-usb.rs.saved_copy/firmware/usb_bootloader/src/ghost_fat.rs:544-563 | Once armed, the device restarts at the first tick by which the delay has passed, and only once |
| GhostFat.GhostFat.WriteBlock | lib/stm32-usb.rs.saved_copy/firmware/usb_bootloader/src/ghost_fat.rs:376-426 | Writing a sector changes flash, page buffer, counter and timer as the model's disk does, with the same reply, also after an earlier block failed; an accepted block is in the flash itself |
| GhostFat.FailedWriteSpoilsTheNext | lib/stm32-usb.rs.saved_copy/firmware/usb_bootloader/src/ghost_fat.rs:376-426 | On a part of 128 KiB: a block that runs past the end is refused, and the next block for the last page is accepted and puts a foreign half word at the beginning of that page |
| GhostFat.GhostFat.Tick | lib/stm32-usb.rs.saved_copy/firmware/usb_bootloader/src/ghost_fat.rs:553-563 | Time passes as in the model's disk |
| PackingBig.AlignedIs | lib/stm32-usb.rs.saved_copy/firmware/packing/packing/src/endian/big.rs:12-106 | Reading a field gives (value mod 2^(8(n-1)+S+1)) / 2^E |
| PackingBig.RestoredIsExactIff | lib/stm32-usb.rs.saved_copy/firmware/packing/packing/src/endian/big.rs:108-169 | Writing a number into an empty field stores v * 2^E modulo the field, if and only if E > 0, or the number is as long as the field, or its first byte fits the field's first byte |
| PackingBig.ShortNumberMasked | lib/stm32-usb.rs.saved_copy/firmware/packing/packing/src/endian/big.rs:108-169 | 0xFF written to a nine-bit field of two bytes with E = 0 is stored as 1 |
| PackingBig.ReadBack | lib/stm32-usb.rs.saved_copy/firmware/packing/packing/src/endian/big.rs:12-169 | Under that condition reading back gives the number modulo 2^width, for every length |
| PackingBig.AlignFieldBits | lib/stm32-usb.rs.saved_copy/firmware/packing/packing/src/endian/big.rs:12-106 | The loop writes Aligned at the end of the output and leaves what is before it |
| PackingBig.RestoreFieldBits | lib/stm32-usb.rs.saved_copy/firmware/packing/packing/src/endian/big.rs:108-169 | The loop turns the output into Restored of its old content |
| PackingLittle.AlignedIs | lib/stm32-usb.rs.saved_copy/firmware/packing/packing/src/endian/little.rs:12-91 | The bytes read are the field's value, with the first byte's bits lowest and each later byte following on |
| PackingLittle.ReadBack | lib/stm32-usb.rs.saved_copy/firmware/packing/packing/src/endian/little.rs:12-168 | For every field that does not begin at the top of its first byte, of one byte or more, and every length of the number, reading back gives the number modulo 2^width |
| PackingLittle.ReadBackWhole | lib/stm32-usb.rs.saved_copy/firmware/packing/packing/src/endian/little.rs:12-168 | The same for a field that begins at the top of its first byte, if the number is as long as the field |
| PackingLittle.LengthsMustAgree | lib/stm32-usb.rs.saved_copy/firmware/packing/packing/src/endian/little.rs:93-110 | For every other length there is a number that is not read back: 1 comes back even |
| PackingLittle.ManyBytesReadWhole | lib/stm32-usb.rs.saved_copy/firmware/packing/packing/src/endian/little.rs:12-91 | A field of more than one byte is read into an empty output of any length as its value |
| PackingLittle.OneByteGoesToTheTop | lib/stm32-usb.rs.saved_copy/firmware/packing/packing/src/endian/little.rs:12-91 | A field of one byte is read into the last byte of the output, which is its highest: its value is read if and only if the output has one byte or the value is zero |
| PackingLittle.AlignFieldBits | lib/stm32-usb.rs.saved_copy/firmware/packing/packing/src/endian/little.rs:12-91 | The loops write a field of several bytes at the start of the output and one of a single byte at its end, and leave the rest |
| PackingLittle.RestoreFieldBits | lib/stm32-usb.rs.saved_copy/firmware/packing/packing/src/endian/little.rs:93-168 | The loops turn the output into Restored of its old content |
| RecorderSpec.JumpsAreTicks | src/workmodes/processing/recorder_processor.rs:464-492 | Whatever passes cost and whichever value fills the page, the loop that sleeps is the simulation that goes through every millisecond, in which the loop looks unless it is busy with a pass |
| RecorderSpec.StoredIff | src/workmodes/processing/recorder_processor.rs:326-364 | Whatever passes cost: until the page fills, a channel is stored at exactly those multiples of its period at which the loop is not busy |
| RecorderSpec.LostIff | src/workmodes/processing/recorder_processor.rs:464-492 | The loop loses exactly the values due inside one of its passes, after the millisecond in which the pass begins |
| RecorderSpec.LongPassLosesValue | src/workmodes/processing/recorder_processor.rs:464-492 | With values due every 2 and every 3 ms and passes of 2 ms, the temperature due at 3 falls inside the pass that begins at 2 |
| RecorderSpec.NothingMissed | src/workmodes/processing/recorder_processor.rs:464-492 | All that this simulation logs in n milliseconds the loop logs in at most n passes, in the same order |
| RecorderSpec.LoopKeepsTimetable | src/workmodes/processing/recorder_processor.rs:464-492 | When passes cost one tick, what the loop logs is the timetable, as long as the 32-bit millisecond counter does not overflow |
| RecorderSpec.TimetableMeans | src/workmodes/processing/recorder_processor.rs:326-364 | Until the page fills, each channel is stored at exactly the times of its cycle and started at exactly its starting times |
| RecorderSpec.PushTimesAreMultiples | src/workmodes/processing/recorder_processor.rs:184-277 | Values are stored at exactly the multiples of the cycle |
| RecorderSpec.NoValueLostIff | src/workmodes/processing/recorder_processor.rs:244-277 | For the counter alone: the timetable has every multiple of the period if and only if the channel never sleeps or has a heating time |
| RecorderSpec.SettingsTimetable | src/workmodes/processing/recorder_processor.rs:50-77 | For every setting: values are due at exactly the multiples of base interval times divider; if that is more than max(2 * measuring time + 200, 250) ms the channel sleeps between and is started exactly that long before each later value, and otherwise it is never started (products and sums as 32-bit words) |
| RecorderSpec.SettingsLog | src/workmodes/processing/recorder_processor.rs:326-364 | Until the page fills the timetable of two configured channels has exactly those values and starts |
| RecorderSpec.SettingsStored | src/workmodes/processing/recorder_processor.rs:464-492 | Whatever passes cost: until the page fills the loop of two configured channels stores exactly those values that are not due inside a pass |
| RecorderSpec.StartTimesPrecedeWrites | src/workmodes/processing/recorder_processor.rs:215-237 | A sleeping channel is started exactly its heating time before each later value |
| Recorder.PageLoop.FillPage | src/workmodes/processing/recorder_processor.rs:464-492 | The loop over the two counters in place is the specification's run of as many passes, log and state |
| Recorder.PageLoop.ProcessSensorEvent | src/workmodes/processing/recorder_processor.rs:326-364 | One channel's event changes counter, log and page as the specification's Process does |
| DiffCoding.DecodeRecovers | src/main_data_storage/diff_writer.rs:46-64 | Running sums of the wrapped differences, channel by channel, recover both series for every interleaving; a missing sample repeats the last |
| DiffCoding.PageDecodes | src/main_data_storage/diff_writer.rs:46-64 | A reader that knows only periods and heating times decodes the page the loop recorded with passes of one tick, because the order is the timetable's |
| DiffCoding.PageDecodesUnlessLost | src/main_data_storage/diff_writer.rs:46-64 | The same whatever passes cost, as long as nothing is due inside a pass |
| DiffCoding.DataBlock.PushData | src/main_data_storage/diff_writer.rs:46-64 | Appends the sample's difference, and keeps the previous values those of the samples so far |
| StorageSpec.NeverOverwrites | src/main_data_storage/mod.rs:78-119 | Over every run with stale or unreachable caches, cut-short writes, chip erases and restarts, a page that is programmed is one whose header is erased |
| StorageSpec.AllocationsIncrease | src/main_data_storage/diff_writer.rs:87-142 | Between two restarts each page handed out lies after all before it |
| StorageSpec.RecordsNamePredecessor | src/main_data_storage/diff_writer.rs:112-119 | A record names itself and its predecessor |
| StorageSpec.CalmSearchIsExact | src/main_data_storage/mod.rs:78-119 | If nothing misleads the cache, the writer gets the first erased page from its position on, and memory is full exactly when there is none |
| StorageSpec.FoundIsExactIff | src/main_data_storage/mod.rs:78-119 | The writer gets the first erased page from its position on if and only if the cache, when it answers, is exact, and otherwise the flash size is learnt or nothing is erased |
| StorageSpec.ExactThroughoutIff | src/main_data_storage/mod.rs:54-119 | Over every run an exact cache stays exact if and only if none of these happens: a rescan that passes over an erased page or cannot learn the flash size while there is one, and a chip erase behind a cache that says full or names a page ahead of the writer |
| StorageSpec.SearchExactIff | src/main_data_storage/mod.rs:78-119 | Whatever the cache was, after a rescan it is exact if and only if the rescan passes over nothing; other searches leave it as it was |
| StorageSpec.FullLasts | src/main_data_storage/mod.rs:79-89 | A cache that says full goes on answering that there is no page until a restart, or a rescan made because the cache was locked finds one |
| StorageSpec.StaleCacheLooksFull | src/main_data_storage/mod.rs:78-119 | After the search at startup and one page, a search that finds the driver in use reports two pages as full although one is blank, then and later |
| StorageSpec.EraseLooksFull | src/main_data_storage/mod.rs:54-76 | Erasing the chip behind a cache that says full leaves it saying so |
| Storage.Storage.FindNextEmptyPage | src/main_data_storage/mod.rs:78-119 | The search loop gives the specification's answer and leaves the specification's cache |
| Storage.FlashDiffWriter.TryCreateNewPage | src/main_data_storage/diff_writer.rs:87-133 | Hands out the page found and moves on, only when no page is open and the settings can be read |
| Storage.FlashDiffWriter.Write | src/main_data_storage/diff_writer.rs:137-172 | Releases the page in any case, and writes its header exactly if the record is complete or cut short after the header |
| StoredRecords.RunRefines | src/main_data_storage/mod.rs:92-114 | Over every run the allocator that reads its headers from the bytes that were programmed behaves as the allocator of the events alone, and a page whose header looks erased is blank |
| StoredRecords.RecordsLandIntact | src/main_data_storage/diff_writer.rs:137-172 | Over every run the page a record is programmed to holds what was written of it and is blank after that, and no other page changes |
| Qspi.StorePage | src/main_data_storage/qspi_storage.rs:28-105 | Storing at most 4096 bytes to an erased page k changes exactly the bytes from 4096 * k on to the data; a failure leaves a beginning of it: nothing, or at least 256 bytes or all |
| Qspi.Driver.WriteBlock | src/main_data_storage/qspi_storage/qspi_driver.rs:376-410 | The pieces tile the data, none wraps within a chip page, and together they program the data at the address in the selected segment |
| Qspi.Driver.SetAddrExtender | src/main_data_storage/qspi_storage/qspi_driver.rs:444-466 | The remembered extender is the chip's once it is set, also after a failure |
| Timer.TransformTarget32 | src/sensors/freqmeter/hw_in_counters/in_counters_l433.rs:476-489 | Finds the smallest divider that works, with both registers in 16 bits and the reload at least 1, and panics exactly above 65535 * 65534 |
| Timer.TargetReached | src/sensors/freqmeter/hw_in_counters/in_counters_l433.rs:472-489 | The timer fires at most one divider step before the target and never after it |
| Timer.RelativeError | src/sensors/freqmeter/hw_in_counters/in_counters_l433.rs:472-489 | The error is below one part in 65535, and none without a prescaler |

## Findings

Where a property one would expect does not hold, the code was kept as it is; the member named gives an input or the
exact condition.

| expected | what the code does | member |
|---|---|---|
| The FAT covers every cluster | emfat.c:330 sizes it without the two reserved words; it is one sector short when the number of clusters mod 128 is 0 or 127. Only a row that straddles the end at mod 0 is read wrongly, because the second copy begins with two words that look like ends of chain | FatReader.FatCoversDiskIff, FatReader.ChainIsExactIff, FatExamples.FatTooShort |
| A directory of any length can be listed | num_subentry leaves out the first child and the header, and sectors repeat from the second cluster on: at most 128 records show | FatReader.DirectoryIsWholeIff, FatExamples.DirectoryTooLong |
| A number shorter than its big-endian field is stored as it is | with E = 0 its own first byte is masked with the field's first byte | PackingBig.RestoredIsExactIff, PackingBig.ShortNumberMasked |
| A number of any length goes through a little-endian field | with S = 7 only numbers as long as the field do | PackingLittle.ReadBackWhole, PackingLittle.LengthsMustAgree |
| A little-endian field of one byte is read as the low byte | it is read into the last byte of the output | PackingLittle.OneByteGoesToTheTop |
| The calendar is the Gregorian one | it has a February 29 in 2100 | FatTime.GregorianIff |
| Every multiple of the period is recorded | a pass that takes longer than a tick is counted at its end, and what was due inside it is not made up for | RecorderSpec.LostIff, RecorderSpec.LongPassLosesValue |
| Resynchronisation never loses a signature | the search stops before the index length - 4, so a signature at the very end is cut to three bytes | Wrappers.SignatureKeptIff |
| A zero-length packet is sent only when less was sent than asked for | the residue tested is already the wrapper's own length, so it is sent after every full last packet towards the host, also when nothing is left of the residue | TransportSpec.ZlpIffLastPacketFull, ZlpExample.WholeReadSendsEmptyPacket |
| A write that fails leaves the page buffer usable | the end of the range counts as inside, so reading the page there overwrites the first half word of the buffer while the old page stays loaded; the next write to that page puts it into the flash | Flash.FlashWrapper.WriteBytes, GhostFat.FailedWriteSpoilsTheNext |
| Memory is reported full only when it is | a rescan that finds the driver in use takes the flash for empty of pages and remembers "full" | StorageSpec.FoundIsExactIff, StorageSpec.SizeUnknownLooksFull, StorageSpec.StaleCacheLooksFull |
| Erasing the chip makes it empty for the allocator | the remembered state stays as it was | StorageSpec.ExactThroughoutIff, StorageSpec.EraseLooksFull |

## Left out

- ReadPackets.RequestsAnsweredInOrder: for the requests of `Request.Valid`, which are those of the next line.
- ScsiSpec.SessionAnswersInOrder: for sessions of Read commands with a length of at least 512 bytes a block, n >= 1, a block range inside 32 bits, `read_block` succeeding, and endpoint packets of at least 31 bytes; the other commands, Write, sense data and inquiry strings are not modelled.
- TransportSpec.HandedOutInOrder: a command layer that puts bytes of its own into the buffer while data comes from the host mixes them with that data, and is excluded; the SCSI Write command that takes the data is not modelled.
- TransportSpec.CommandEndsWithOneReport: a bus reset ends a command without a report and is excluded; a host that sends more data than it announced is modelled, and its residue is reported as zero.
- TransportSpec.ZlpIffLastPacketFull: zero-length packets count as nothing in the byte stream; whether one is needed is not claimed.
- RecorderSpec.LoopKeepsTimetable: for passes of one tick, with the heating commands in place; for longer passes LostIff says which values are stored, and nothing is said of when channels are heated. The loop's two 32-bit counters stop the model when they overflow, after 49 days on one page.
- RecorderSpec.SettingsTimetable: a write period of 0, which the settings allow, divides by zero in the source and is excluded.
- DiffCoding.PageDecodes: for passes of one tick; PageDecodesUnlessLost has the others. The packer of `self_recorder_packet` is not part of this model and is taken to accept every value until it is full (no Overflow); its compression, checksum and header layout are left out.
- FatReader.DiskShowsTheTable: for tables whose names do not begin like a free, deleted or dot record, whose sizes, offsets and cluster numbers stay inside their 32-bit words (`NoWrap`), with fewer than 2^31 sectors, directories of at most 128 records, and no row across the end of a short FAT; long file names do not exist on this disk.
- Emfat.Init: numbers are unbounded here and 32-bit in the source; `FatReader.Readable` says when none of them wraps.
- EmfatSpec.ChsRoundTrip: from cylinder 1024 on the three bytes are all 255 and name no sector.
- FatTime.Calendar.CmaTimeFromUnix: for times from 1980 on, because the packed form cannot hold earlier years.
- Flash.FlashWrapper.WriteBytes: for addresses inside the range and ends inside 32 bits; reading outside the cells gives a value that depends on the address alone, where a real bus may fault; waiting for the chip, unlocking it and reading plain bytes are left out.
- GhostFat.AnyOrderProgramsTheImage: the sectors the fake disk shows (`read_block`), checking for a valid application and jumping to it are left out, and so is conversion from ELF.
- StorageSpec.NeverOverwrites: a page counts as erased by its two header words, as in the source; StoredRecords adds the bytes. Which locks a search obtains is a parameter, so that nothing is said of how often the driver is in use by another task.
- StoredRecords.RecordsLandIntact: starts from a flash in which every page with an erased header is blank; where in its first 256 bytes a record has its two header words is a parameter, because the layout of `self_recorder_packet` is not part of this model.
- Qspi.StorePage: the case of the extender value 255, which the driver uses for "not set", is excluded; sleeping, reading and erasing the chip are left out, and one accessor is live at a time.
- Emfat.Emfat.FillEntry: a record, and the partition, boot and FS information sectors, are built as values and then copied into the sector; the source writes them field by field.
- Writing to the virtual disk: the firmware rejects it.
- Registers, clocks, DMA, interrupts, threads and queues: hardware access without an algorithm of its own.
- Pressure and temperature polynomials, frequency adaptation and the master counter: floating point and interrupt timing.
