# Verified models of U-Boot command cores

This project models the parts of the `a1000_uboot2019` tree whose behaviour is decided by an algorithm
rather than by a device, and proves what those algorithms are for. `dafny verify dfyconfig.toml` checks
everything.

Each core comes in three layers. *Specification functions* say what one step or one run computes, in the
code's own branches and arithmetic. *Methods* and *classes* follow the C code's loops, arrays and in-place
updates and are proved to leave exactly the specified state. *Lemmas* about the specification say what that
is good for, for every input, every run or every outcome of the hardware.

| files | what they model |
|---|---|
| `Machine.dfy`, `Division.dfy`, `Wrappers.dfy` | 64-bit unsigned arithmetic; unsigned quotient and remainder; optional values |
| `FlashRanges.dfy`, `FlashOutcome.dfy`, `FlashCommands.dfy`, `FlashLength.dfy` | NOR flash: an address range becomes one interval of sectors per bank, which is then protected or erased |
| `StorageEnum.dfy`, `StorageApi.dfy` | the device enumeration protocol of the external-applications API |
| `FloppyGeometry.dfy`, `FloppyEngine.dfy`, `FloppyRead.dfy` | the floppy read engine with its two levels of retries |
| `EfiMemTable.dfy`, `EfiTypes.dfy`, `EfiOrder.dfy`, `EfiBuild.dfy`, `EfiPrint.dfy` | the EFI memory table: sorted, retyped, merged in place, listed |
| `ArmFooter.dfy` | the end-around-carry checksum of ARM flash footers |
| `FdtTree.dfy`, `FdtPrune.dfy`, `FdtChildren.dfy`, `FdtProp.dfy`, `FdtRoundTrip.dfy`, `FdtNumerals.dfy`, `FdtByteNumerals.dfy`, `FdtRefusals.dfy`, `FdtText.dfy` | device-tree text: the tree printer, child lookup, property parser and property printer |
| `Eeprom.dfy`, `EepromTransfer.dfy`, `EepromRoundTrip.dfy`, `EepromPages.dfy`, `EepromCode.dfy` | chunked EEPROM transfers on devices whose address counter wraps within a page |
| `EthswTable.dfy`, `EthswWords.dfy`, `EthswParse.dfy`, `EthswMeaning.dfy` | the Ethernet switch command parser |

## What the main results say

*Flash.* A range ending at a sector end is resolved to sectors holding exactly its bytes, and it is accepted
if and only if it starts at a sector start, is flash throughout, and meets its banks in ascending order
(`ExactCover`, `AcceptedIff`). The return code is characterised for every other range too (`ReturnsZeroIff`): one
that ends inside a sector is refused. For `start +len`, machine wraparound included, acceptance and effect are
characterised from the parsed numbers to the protection bits and the erased sectors (`LengthFormAcceptedIff`,
`DoProtect`, `DoErase`).
Banks are well formed: sector starts increase, the size reaches past the last one, banks are disjoint and
end below the top of the address space, unknown banks have no sectors.

*Enumeration.* A whole run from a NULL cookie returns the network device and then an expected list of
storage devices, each once and in order, then NULL, and does so again after every restart.

*Floppy.* The controller is an arbitrary sequence of per-byte outcomes and command answers; it finds a sector only
on the track its heads stand on and on the side the drive byte selects. Every run ends
with the requested blocks in the buffer, or at the 25th transfer error after 4 recalibrations, or at a
failed command, and the complete READ commands tile the request. How a call ends, and whether it restores the
interrupts, is decided by the last command and its answer (`EndIff`, `FdcReadData`).

*EFI.* In-place merging keeps the multiset of (page, type) pairs of the map for any input, with the types 1 to 4
read as 7 under skip_bs (`TableSays`), is maximal and idempotent, and the listing's gap lines are exactly the
addresses no row covers.

*Checksum.* The sum modulo 2^32-1 in canonical form, and which changes it misses.

*Device tree.* The flat tag loop refines a recursive printer and accepts exactly the streams that start with a
whole node; braces balance; printing and parsing of property values are inverse; numbers in every notation of C
are stored as their cells (`NumeralsParse`); counting children by depths counts children.

*EEPROM.* Whichever transfers fail, the others act as on flat memory (`WriteMeans`, `ReadMeans`), and this holds
exactly for the configurations whose transfers stay within a page (`FlatAlwaysIff`). Reading back returns what
was written exactly when no cell was given two values, and it is stated when cells coincide. The return code can
be trusted exactly for requests of one transfer (`TrustworthyIff`).

*ethsw.* From the words of a command to the function called: sound and complete, with the greedy choice of
the optional prefix never wrong, and the function the one the help texts promise (`RegisteredCommand`).

## Where the code differs from its comments

- `flash_fill_sect_ranges` may return 0 for a mere prefix of the request when the last address is not the
  end of a sector of known flash (`FlashCommands.PrefixOnlyExample`, `FlashRanges.ExactIffSectorEnd`).
- The comment above `addr_spec` describes both address forms as excluding their end; the code includes the
  end address. The overflow it warns about is harmless for accepted requests (`AcceptedDidNotWrap`).
- An inactive storage device ends the enumeration of its group; active devices behind it are not listed
  (`StorageEnum.ListedIff`).
- `fdc_read_data` does not restore interrupts when a seek after the first one is not confirmed
  (`FloppyRead.FdcReadData`, `FloppyRead.InterruptsLost`). The head field of the
  command is computed with `head|=0`, which tests the head.
- `h_cmp_entry` is not an order on the whole 64-bit address space (`EfiMemTable.CompareIsCyclic`), and sorting
  with it sorts exactly the maps whose addresses are less than 2^63 apart (`EfiOrder.TableIsSortedIff`).
- `eeprom_rw` overwrites its return code at every transfer (`EepromCode.TrustworthyIff`,
  `EepromCode.LostChunkExample`), does nothing and returns 0 when the end of the request overflows, and
  computes page offsets from the low eight bits of the offset, which is wrong for pages of more than 256 bytes
  unless transfers are single bytes (`EepromPages.FlatAlwaysIff`).
- `keywords_find` looks for unrecognised words in a loop of its own, which changes no answer
  (`EthswParse.UnknownWord`).

## Model

| member | source | states |
|---|---|---|
| FlashRanges.ExactCover | a1000_uboot2019/cmd/flash.c:187-268 | On well-formed banks, a 0 return for a range that ends at a sector end selects sectors whose bytes are exactly the range: nothing missing, nothing more. |
| FlashRanges.AcceptedIff | a1000_uboot2019/cmd/flash.c:187-268 | Such a range is accepted if and only if it starts at a sector start, every byte of it is flash, and the banks it meets are numbered in ascending address order. |
| FlashRanges.ExactIffSectorEnd | a1000_uboot2019/cmd/flash.c:231-245 | After a 0 return the cover is exact if and only if the last address is the end of a sector; otherwise only a proper prefix is selected. |
| FlashRanges.SelectionIsPrefix | a1000_uboot2019/cmd/flash.c:203-265 | Whatever the request, what a 0 return selects is the prefix from the first address to the address the bank scan reached. |
| FlashRanges.SpanOfSectors | a1000_uboot2019/cmd/flash.c:218-234 | Sectors f to l of a bank hold exactly the bytes from the start of f to the end of l. |
| FlashRanges.TakeSpan | a1000_uboot2019/cmd/flash.c:235-254 | A bank that is taken starts at the current first address, and the rewritten first address is the byte behind its selection. |
| FlashRanges.ReadySucceeds | a1000_uboot2019/cmd/flash.c:203-265 | The conditions of acceptance are kept by every bank of the scan and make it succeed. |
| FlashRanges.SkipsForeignBank | a1000_uboot2019/cmd/flash.c:235-264 | A bank that does not hold the current first address is passed over when the banks met ascend. |
| FlashRanges.CountIsSectors | a1000_uboot2019/cmd/flash.c:254 | The sector count reported is the number of distinct (bank, sector) pairs selected. |
| FlashOutcome.ReturnsZeroIff | a1000_uboot2019/cmd/flash.c:187-268 | The return code for every range: from a sector start it is 0 if and only if ending at a sector end and being flash of banks in ascending order go together; from anywhere else if and only if the range neither ends at a sector end nor starts inside a bank, and then nothing is selected. |
| FlashOutcome.EndsInsideIsRefused | a1000_uboot2019/cmd/flash.c:235-245 | A range of flash from a sector start through ascending banks is accepted if and only if it ends at a sector end. |
| FlashOutcome.OffStartIff | a1000_uboot2019/cmd/flash.c:255-264 | A range that starts at no sector start selects nothing, and is refused if and only if it starts inside a bank or ends at a sector end. |
| FlashOutcome.WithoutEnd | a1000_uboot2019/cmd/flash.c:203-265 | From a sector start, a range that does not end at a sector end is refused if and only if the scan gets through ascending flash to the bank it ends in. |
| FlashCommands.FillSectRanges | a1000_uboot2019/cmd/flash.c:187-268 | The two loops over the arrays s_first and s_last, updating them, the first address and the count in place, compute the specified ranges; of well-formed banks the return code for every range is stated outright, and a range that ends inside a sector is refused. |
| FlashCommands.FillBank | a1000_uboot2019/cmd/flash.c:204-264 | One bank changes only its own two array entries, and leaves the specified error, selection and next address. |
| FlashCommands.ScanSectors | a1000_uboot2019/cmd/flash.c:218-234 | The sector loop finds the sector that starts at the first address and the one that ends at the last. |
| FlashCommands.RoundToSectorEnd | a1000_uboot2019/cmd/flash.c:91-127 | Returns 0 and the end of the first sector that holds the address, or 1 and the address unchanged. |
| FlashCommands.RoundFromMeans | a1000_uboot2019/cmd/flash.c:96-124 | Rounding fails if and only if no sector holds the address, and otherwise gives the end of a sector that does. |
| FlashCommands.AddrSpecLength | a1000_uboot2019/cmd/flash.c:166-182 | The numeric part of "start +len": the end address, in machine arithmetic, is rounded up or the specification is refused. |
| FlashCommands.AcceptedDidNotWrap | a1000_uboot2019/cmd/flash.c:166-182 | A request accepted from end to end has a length of at least one and did not wrap around the address space. |
| FlashCommands.LengthFormAcceptedIff | a1000_uboot2019/cmd/flash.c:382-385 | "start +len" gets through parsing, the caller's comparison and range filling if and only if it does not wrap, its last byte is in a sector, and up to the end of that sector it is an ascending run of flash from a sector start. |
| FlashCommands.LengthFormIsExact | a1000_uboot2019/cmd/flash.c:91-127 | The sectors then chosen hold exactly the bytes from start to the end of the sector holding start+len-1. |
| FlashCommands.PrefixOnlyExample | a1000_uboot2019/cmd/flash.c:237-238 | A concrete "start end" request beyond the flash that returns 0 with only the flash part selected. |
| FlashCommands.ChosenIff | a1000_uboot2019/cmd/flash.c:615-629 | After a 0 return a sector is selected if and only if all of it lies within the selected prefix. |
| FlashCommands.SelectionShape | a1000_uboot2019/cmd/flash.c:406-411 | A 0 return leaves in every bank no selection or sectors of a known bank. |
| FlashCommands.ProtectSectors | a1000_uboot2019/cmd/flash.c:619-626 | Sets the protection of the selected sectors of one bank and of no other sector. |
| FlashCommands.SectProtect | a1000_uboot2019/cmd/flash.c:589-636 | On 0 exactly the selected sectors of all banks have the new protection value and all others keep theirs; when resolution fails nothing changes. |
| FlashCommands.ProtectBank | a1000_uboot2019/cmd/flash.c:603-623 | One bank's protection becomes its selection's, every other bank keeps its own. |
| FlashCommands.CountIsSum | a1000_uboot2019/cmd/flash.c:393-429 | The planned count equals the sizes of the selected intervals. |
| FlashCommands.EraseBanks | a1000_uboot2019/cmd/flash.c:405-417 | The selected banks are erased in bank order, stopping at the first that fails. |
| FlashCommands.SectErase | a1000_uboot2019/cmd/flash.c:393-429 | A 0 return means every selected interval was erased and the number of sectors reported is the number planned; when resolution fails or selects nothing, no bank is touched. |
| FlashLength.ChosenIffHasByte | a1000_uboot2019/cmd/flash.c:382-385 | Of an accepted "start +len" a sector is chosen if and only if it has a byte in start..start+len-1. |
| FlashLength.DoProtect | a1000_uboot2019/cmd/flash.c:575-583 | "protect start +len" returns 0 if and only if the request is acceptable, and then sets exactly the sectors with a byte in start..start+len-1; otherwise nothing changes, and the code says which way the request was refused. |
| FlashLength.DoErase | a1000_uboot2019/cmd/flash.c:380-387 | "erase start +len" calls for no erase unless the request is acceptable. Of an acceptable one the sectors with a byte in start..start+len-1 are erased in bank order up to the first bank that does not answer 0, whose answer is returned; 0 is returned if and only if all of them answer 0. |
| FlashLength.ErasesInOrderMeans | a1000_uboot2019/cmd/flash.c:405-417 | In terms of the request: exactly the sectors with a byte in it, in the banks up to the first failing one, went to flash_erase, bank by bank. |
| StorageEnum.OnePass | a1000_uboot2019/api/api_storage.c:98-291 | Fed its own answers from a NULL cookie, the iterator returns the network device, then the storage devices of the expected list in order, then NULL. |
| StorageEnum.EveryPass | a1000_uboot2019/api/api.c:196-226 | The same sequence comes back after every restart. |
| StorageEnum.RestartStep | a1000_uboot2019/api/api.c:205-213 | A NULL cookie restarts: flags cleared, network device first if there is one. |
| StorageEnum.ContinueStep | a1000_uboot2019/api/api_storage.c:180-291 | From the k-th answer the next call gives the next entry of the list, or NULL at its end. |
| StorageEnum.Resume | a1000_uboot2019/api/api_storage.c:180-268 | Groups before the cookie's group are passed over without touching the cookie, and the cookie's group continues behind it. |
| StorageEnum.FreshGroups | a1000_uboot2019/api/api_storage.c:229-247 | Groups not yet visited, entered with a foreign cookie, answer with the first device of their listing. |
| StorageEnum.PassIsStrictlyIncreasing | a1000_uboot2019/api/api_storage.c:280-291 | For any mix of absent, inactive and active devices a pass is strictly increasing in (group, index): no device twice. |
| StorageEnum.PassIsActive | a1000_uboot2019/api/api_storage.c:138-150 | Every storage device returned is present and active. |
| StorageEnum.ListedIff | a1000_uboot2019/api/api_storage.c:120-150 | Exactly the present devices with no inactive device at or before them in their group are returned. |
| StorageEnum.AllListedWhenActive | a1000_uboot2019/api/api_storage.c:98-291 | When every present device is active a pass returns all of them. |
| StorageEnum.ListingSuffix | a1000_uboot2019/api/api_storage.c:108-126 | What follows the k-th device of a listing is the listing from the position behind it: the cookie is all the iterator has to remember. |
| StorageEnum.EarlierGroupsClosed | a1000_uboot2019/api/api_storage.c:248-259 | After the call that follows a storage device every earlier group is closed, also one that was left at an inactive device. |
| StorageApi.Specs.constructor | a1000_uboot2019/api/api_storage.c:49-85 | The flags of every group start cleared. |
| StorageApi.Specs.DevStorGet | a1000_uboot2019/api/api_storage.c:98-154 | The search for the cookie and the search for the next present device update the caller's device_info as specified. |
| StorageApi.Specs.DevStorType | a1000_uboot2019/api/api_storage.c:159-169 | The first group that holds the pointer. |
| StorageApi.Specs.DevEnumStor | a1000_uboot2019/api/api_storage.c:180-268 | One group's answer, and its started and ended flags. |
| StorageApi.Specs.DevEnumReset | a1000_uboot2019/api/api_storage.c:270-278 | Clears the flags of all groups. |
| StorageApi.Specs.DevEnumStorage | a1000_uboot2019/api/api_storage.c:280-291 | The first group that finds a device answers; the groups before it update flags and cookie. |
| StorageApi.Specs.ApiDevEnum | a1000_uboot2019/api/api.c:196-226 | One call is one step of the protocol on the device_info and the flags; without a device_info it refuses and changes nothing. |
| FloppyGeometry.BlockRoundTrip | a1000_uboot2019/cmd/fdc.c:252-256 | Every block of the disk has valid track, head and sector numbers, and they determine the block. |
| FloppyGeometry.ChsRoundTrip | a1000_uboot2019/cmd/fdc.c:252-256 | Every valid track, head and sector is that of exactly one block. |
| FloppyGeometry.NextSectors | a1000_uboot2019/cmd/fdc.c:252-256 | Within one side of a track consecutive blocks are consecutive sectors. |
| FloppyGeometry.H1440IsValid | a1000_uboot2019/cmd/fdc.c:139-143 | The one drive type of the table, 1.44 MB: 2880 blocks of 512 bytes on 80 tracks of two sides with 18 sectors, which fill the tracks and fit the command bytes. |
| FloppyGeometry.CommandFields | a1000_uboot2019/cmd/fdc.c:260-278 | The nine bytes of a READ: the command with the MFM bit, drive + 4 * head for the four drive numbers, track, head and sector of the block, and the constants; storing them in bytes cuts off nothing, except from track 256 on, which no block of the disk reaches. |
| FloppyGeometry.SideIsSelectedIff | a1000_uboot2019/cmd/fdc.c:260-266 | The side that the drive byte selects is the block's if and only if the drive number leaves the head-select bit free or the block is on side 1; numbers below 4 leave it free. |
| FloppyGeometry.WrongSideFindsNothing | a1000_uboot2019/cmd/fdc.c:260-266 | With any other drive number nothing of a block on side 0 is found. |
| FloppyGeometry.ReadDeliversBlocks | a1000_uboot2019/cmd/fdc.c:270-280 | A READ that stays on one side, issued while the heads stand on its track, selects that side in its drive byte and delivers the requested blocks in order, on the disk or beyond it. |
| FloppyGeometry.FlatByteOnDisk | a1000_uboot2019/cmd/fdc.c:252-278 | For a block of the disk these are the bytes of its own track, head and sector. |
| FloppyEngine.ReadsTile | a1000_uboot2019/cmd/fdc.c:436-507 | In any run the complete READs cover the requested blocks once each and in order; a failed READ is repeated from its start. |
| FloppyEngine.NextChunk | a1000_uboot2019/cmd/fdc.c:504-507 | Behind a chunk that leaves blocks over, the next one starts at the front of a side, so a whole side or what is left is its size. |
| FloppyEngine.AttemptFailed | a1000_uboot2019/cmd/fdc.c:483-484 | A partly filled chunk is read again from its start. |
| FloppyEngine.AttemptComplete | a1000_uboot2019/cmd/fdc.c:495-502 | A complete chunk advances block number, offset and remaining blocks together. |
| FloppyEngine.Recalibrates | a1000_uboot2019/cmd/fdc.c:472-482 | The fifth error since the last recalibration makes another one, after which the plain retries start again. |
| FloppyEngine.EndIff | a1000_uboot2019/cmd/fdc.c:405-526 | From the last command and its answer, and the number of errors, it follows how a call ends, and the other way round. |
| FloppyEngine.SecondSeek | a1000_uboot2019/cmd/fdc.c:508-521 | A call that succeeds on more than one side has had a seek behind the first one confirmed. |
| FloppyEngine.PromiseFills | a1000_uboot2019/cmd/fdc.c:405-526 | With one of the four drive numbers a successful call has the bytes of the requested blocks, in order, at the front of the buffer. |
| FloppyRead.FdcReadData | a1000_uboot2019/cmd/fdc.c:405-526 | For every request and every sequence of transfer outcomes and command answers: the requested blocks in the buffer, the rest of it untouched and the block number advanced, or failure exactly at the 25th transfer error after 4 recalibrations, or a failure the last command accounts for; interrupts are restored if and only if the last command is not an unconfirmed seek behind the first. |
| FloppyRead.InterruptsLost | a1000_uboot2019/cmd/fdc.c:516-520 | A concrete call on the 1.44 MB disk, with every byte delivered and only the first seek confirmed, that fails and leaves the interrupts off. |
| FloppyRead.ReadBlocks | a1000_uboot2019/cmd/fdc.c:422-523 | The first seek and the loop from label to label, up to the end of the call. |
| FloppyRead.ReadOn | a1000_uboot2019/cmd/fdc.c:442-523 | The loop ends, whatever the controller answers. |
| FloppyRead.ReadChunk | a1000_uboot2019/cmd/fdc.c:443-507 | One READ and what follows keep the state between the labels, and either errors increase or blocks decrease. |
| FloppyRead.SeekNext | a1000_uboot2019/cmd/fdc.c:508-521 | A seek leads to the next READ or to a promised failure. |
| FloppyRead.FdcSeek | a1000_uboot2019/cmd/fdc.c:377-387 | A seek goes to the track of the current block: once it is confirmed the heads stand on the track that the READ addresses. |
| FloppyRead.Attempt | a1000_uboot2019/cmd/fdc.c:444-494 | Issued with the heads on the chunk's track, a complete attempt extends the filled part of the buffer by its chunk; a failed one leaves block number and offset. |
| FloppyRead.Transfer | a1000_uboot2019/cmd/fdc.c:452-491 | The byte loop fills the chunk and nothing else, or stops at the first transfer error. |
| FloppyRead.Recover | a1000_uboot2019/cmd/fdc.c:465-487 | Four plain retries, then a recalibration; after four of those the next error ends the read. |
| EfiMemTable.TableKeepsMeaning | a1000_uboot2019/cmd/efi.c:71-122 | The table built from any map of fewer than 2^64 pages has the map's multiset of (page, type) pairs, boot services read as conventional under skip_bs, even for overlapping descriptors. |
| EfiTypes.TableSays | a1000_uboot2019/cmd/efi.c:51-56 | Of a map of fewer than 2^64 pages, every page and type: under skip_bs the types 1, 2, 3, 4 and 7 are all counted as 7, none of 1 to 4 is left, and every other type is as in the map; otherwise all types are. |
| EfiTypes.TableRowsFrom | a1000_uboot2019/cmd/efi.c:90-117 | Every row has the addresses and attributes of a descriptor of the map, and its type but for 1 to 4 read as 7 under skip_bs. |
| EfiTypes.EndAddress | a1000_uboot2019/cmd/efi.c:116-117 | A row ends 4096 bytes per page behind its start, modulo 2^64. |
| EfiMemTable.StoredMeaningIff | a1000_uboot2019/cmd/efi.c:109-110 | The stored table has that meaning if and only if no merged row reaches 2^64 pages. |
| EfiMemTable.PagesConserved | a1000_uboot2019/cmd/efi.c:109-110 | Fewer than 2^64 pages in all: the total is conserved. |
| EfiMemTable.CoalesceKeepsMeaning | a1000_uboot2019/cmd/efi.c:90-117 | Merging any list, sorted or not, describes the same pages. |
| EfiMemTable.AddrIsEndOfPrev | a1000_uboot2019/cmd/efi.c:109-116 | The loop's addr is always the end of the row prev points to. |
| EfiMemTable.TableIsMaximal | a1000_uboot2019/cmd/efi.c:99-107 | With skip_bs no two neighbouring rows are both conventional and touching. |
| EfiMemTable.NoBootServicesLeft | a1000_uboot2019/cmd/efi.c:51-56 | With skip_bs no row keeps a boot-services type. |
| EfiMemTable.CoalesceIsIdempotent | a1000_uboot2019/cmd/efi.c:90-117 | Running the merge on its own output changes nothing. |
| EfiMemTable.AllRowsKept | a1000_uboot2019/cmd/efi.c:99-100 | Without skip_bs every descriptor stays a row of its own. |
| EfiMemTable.CompareIsOrderIff | a1000_uboot2019/cmd/efi.c:58-69 | The comparison orders two addresses correctly if and only if they are less than 2^63 apart, and is 0 only for equal ones. |
| EfiMemTable.CompareIsCyclic | a1000_uboot2019/cmd/efi.c:58-69 | On the whole address space the comparison has a cycle. |
| EfiMemTable.NeighboursSorted | a1000_uboot2019/cmd/efi.c:58-69 | When all addresses are comparable, neighbours in order mean the whole list is in order. |
| EfiMemTable.CoalesceKeepsOrder | a1000_uboot2019/cmd/efi.c:90-117 | Merging keeps a sorted list sorted. |
| EfiMemTable.TableIsSorted | a1000_uboot2019/cmd/efi.c:71-122 | The table is in address order when the addresses are comparable; without skip_bs it is then the sorted map itself. |
| EfiOrder.TableIsSortedIff | a1000_uboot2019/cmd/efi.c:58-69 | Without skip_bs the table is in address order, however a sort with this comparison leaves the map, if and only if all addresses are less than 2^63 apart. |
| EfiOrder.UnsortedOrdering | a1000_uboot2019/cmd/efi.c:58-69 | A map with addresses further apart has an ordering in which no neighbours are out of order and which is not sorted. |
| EfiBuild.Qsort | a1000_uboot2019/lib/qsort.c:22-66 | The in-place shell sort permutes the elements and leaves no neighbours out of order. |
| EfiBuild.GapPass | a1000_uboot2019/lib/qsort.c:41-64 | One gap pass orders all elements that are the gap apart. |
| EfiBuild.InsertAt | a1000_uboot2019/lib/qsort.c:41-64 | Moving one element down by exchanges keeps what is already ordered. |
| EfiBuild.MergeInPlace | a1000_uboot2019/cmd/efi.c:85-119 | The loop with two cursors on one array leaves the specified rows and the end mark, never overwriting a descriptor before it is read. |
| EfiBuild.MergeOne | a1000_uboot2019/cmd/efi.c:90-117 | One descriptor is copied and retyped, then kept or added to the row before; addr is its end. |
| EfiBuild.BuildMemTable | a1000_uboot2019/cmd/efi.c:71-122 | The finished table: every page with the types stated for it, every row from a descriptor, sorted, maximal, or a permutation of the map, each under its condition. |
| EfiBuild.EndInWordsIsEnd | a1000_uboot2019/cmd/efi.c:116-117 | The shifted sum in 64-bit arithmetic is the address behind the last page. |
| EfiPrint.PrintMemTable | a1000_uboot2019/cmd/efi.c:124-173 | The listing loop prints the specified lines and records each attribute value once, up to thirty. |
| EfiPrint.LinesAreContiguous | a1000_uboot2019/cmd/efi.c:140-172 | Whatever the table, every printed line starts where the one before ended, the first at address 0. |
| EfiPrint.GapsAreUncovered | a1000_uboot2019/cmd/efi.c:146-149 | For separate rows the gap lines cover exactly the addresses below the last row that belong to no row. |
| EfiPrint.ShownIff | a1000_uboot2019/cmd/efi.c:140-158 | A row is shown, with its own number, if and only if it stands before the end mark and, under skip_bs, is not of type 1 to 4. |
| EfiPrint.RowsInOrder | a1000_uboot2019/cmd/efi.c:140-158 | Row numbers increase from line to line. |
| EfiPrint.NothingSkipped | a1000_uboot2019/cmd/efi.c:144-145 | In a table without boot services the skip test removes nothing. |
| EfiPrint.EndMarkEnds | a1000_uboot2019/cmd/efi.c:140-142 | Nothing behind the end mark is looked at. |
| ArmFooter.ComputeCrc | a1000_uboot2019/cmd/armflash.c:37-56 | The loop computes the end-around-carry checksum of the words, or 0 for a length that is not a multiple of four. |
| ArmFooter.SumIsCanonical | a1000_uboot2019/cmd/armflash.c:44-52 | The running sum is the word total modulo 2^32-1, with 0 only for all-zero words. |
| ArmFooter.CrcOfPermutation | a1000_uboot2019/cmd/armflash.c:37-56 | The order of the words does not matter. |
| ArmFooter.ChecksumCancels | a1000_uboot2019/cmd/armflash.c:136-144 | Words that include their own checksum, anywhere among them, have checksum 0. |
| ArmFooter.PassesIff | a1000_uboot2019/cmd/armflash.c:136-144 | The footer check passes if and only if the total is a nonzero multiple of 2^32-1. |
| ArmFooter.OneWordChangeDetected | a1000_uboot2019/cmd/armflash.c:136-144 | Changing one word leaves the checksum the same if and only if it exchanges 0 and 0xFFFFFFFF while another word is not zero. |
| FdtPrint.FlatRefinesPretty | a1000_uboot2019/cmd/fdt.c:1037-1103 | The level-counter loop returns 0 exactly for nodes nested less than 32 deep, whatever follows them, and then has emitted the text of a recursive printer pruned at the depth; for others its last line is the message that the nesting is too deep. |
| FdtPrint.FlatNode | a1000_uboot2019/cmd/fdt.c:1040-1063 | Inside the printed node a subtree is emitted and left at the level it was entered, or the loop aborts. |
| FdtPrint.BracesBalance | a1000_uboot2019/cmd/fdt.c:1040-1063 | What is emitted for an accepted node has balanced braces, indented by their nesting, whatever the depth it is pruned at. |
| FdtPrint.PrintTag | a1000_uboot2019/cmd/fdt.c:1039-1100 | One tag; the level, and with it the index into tabs, stays in range. |
| FdtPrint.Print | a1000_uboot2019/cmd/fdt.c:1037-1103 | The loop over the tags from the node found, as specified. |
| FdtPrune.AcceptedIff | a1000_uboot2019/cmd/fdt.c:1037-1103 | Of all tag streams that start with the beginning of a node the loop returns 0 for exactly those that start with a whole node less than 32 levels deep, and 1 for all others. |
| FdtPrune.LoopPrunes | a1000_uboot2019/cmd/fdt.c:1040-1096 | What is emitted for an accepted node is the listing of the whole tree without the lines below the depth asked for, NOP marks excepted. |
| FdtChildren.SizeIsChildCount | a1000_uboot2019/cmd/fdt.c:376-408 | "get size" is the number of direct children whatever the subtree sizes. |
| FdtChildren.NameIsKthChild | a1000_uboot2019/cmd/fdt.c:385-411 | "get name" with index k is the k-th direct child, and fails exactly when there is none. |
| FdtChildren.ItemsSkipped | a1000_uboot2019/cmd/fdt.c:388-404 | Below a direct child the walk counts nothing and comes out as it went in. |
| FdtChildren.FdtNextNode | a1000_uboot2019/scripts/dtc/libfdt/fdt.c:165-203 | The next BEGIN_NODE and its depth, or where the walk leaves the tree or the block ends. |
| FdtChildren.GetChild | a1000_uboot2019/cmd/fdt.c:376-412 | The depth walk on structure-block offsets answers as specified. |
| FdtRoundTrip.NumbersRoundTrip | a1000_uboot2019/cmd/fdt.c:796-866 | What print_data prints for numbers, cut into words at any of its spaces, is parsed back to the same bytes and length. |
| FdtRoundTrip.PrintedNumbersParse | a1000_uboot2019/cmd/fdt.c:957-980 | The same for the text as one word. |
| FdtRoundTrip.PrintedCells | a1000_uboot2019/cmd/fdt.c:957-969 | Cells are printed between angle brackets with a space between them. |
| FdtRoundTrip.PrintedBytes | a1000_uboot2019/cmd/fdt.c:970-980 | Bytes are printed between square brackets with a space between them. |
| FdtNumerals.NumeralsParse | a1000_uboot2019/cmd/fdt.c:806-843 | A list of numbers in any of C's notations, and of question marks, cut into words at any of its spaces: each number is stored as the big-endian cell of its low 32 bits, a question mark leaves a cell as it was, and an unexpected character instead of the closing bracket is refused. |
| FdtNumerals.OneNumberParses | a1000_uboot2019/cmd/fdt.c:779-787 | Every number below 2^32, written in decimal, in octal with a leading 0 or in hexadecimal with a leading 0x, is stored as its four big-endian bytes. |
| FdtNumerals.NumberParses | a1000_uboot2019/lib/strto.c:17-51 | With base 0 the conversion reads every numeral of C, in each notation, as its number modulo 2^64 and stops behind it. |
| FdtNumerals.NumeralRead | a1000_uboot2019/lib/strto.c:40-46 | The digits of a number in base 8, 10 or 16 read as that number modulo 2^64. |
| FdtByteNumerals.ByteNumeralsParse | a1000_uboot2019/cmd/fdt.c:844-865 | Of each hexadecimal number of a byte stream, with or without 0x, the low eight bits are stored; an unexpected character instead of the closing bracket is refused. |
| FdtRefusals.CellsNeedDigits | a1000_uboot2019/cmd/fdt.c:819-835 | Where a number is expected anything but a digit, a question mark or the closing bracket is refused. |
| FdtRefusals.AcceptedHasEnd | a1000_uboot2019/cmd/fdt.c:806-865 | A list that is accepted has its closing bracket somewhere in the words. |
| FdtProp.FdtParseProp | a1000_uboot2019/cmd/fdt.c:796-881 | The parser of the three forms of a property, word by word; what it makes of numbers is stated by FdtNumerals.NumeralsParse and FdtByteNumerals.ByteNumeralsParse. |
| FdtProp.ParseCellWords | a1000_uboot2019/cmd/fdt.c:806-843 | The cell loop across words. |
| FdtProp.ParseByteWords | a1000_uboot2019/cmd/fdt.c:844-865 | The byte loop across words. |
| FdtProp.ParseStringWords | a1000_uboot2019/cmd/fdt.c:866-879 | The string loop: every word with its terminator. |
| FdtProp.CellTextParses | a1000_uboot2019/lib/strto.c:17-51 | A printed cell is read back up to whatever follows that is not a digit. |
| Strtoul.DigitsOfByte | a1000_uboot2019/lib/strto.c:33-51 | Reading two printed hexadecimal digits appends their eight bits to the number. |
| FdtText.PrintableIff | a1000_uboot2019/cmd/fdt.c:889-924 | Data is taken for text if and only if all bytes are printable, space or NUL, no two NULs are adjacent, and it ends in NUL, or in a newline with a NUL behind it in memory. |
| FdtText.CheckPrintable | a1000_uboot2019/cmd/fdt.c:889-924 | The pointer loop of the heuristic, as specified. |
| FdtText.PutStrings | a1000_uboot2019/cmd/fdt.c:943-955 | The text loop emits every string once and ends exactly behind the last terminator. |
| FdtText.StringListRoundTrip | a1000_uboot2019/cmd/fdt.c:866-879 | Splitting what the parser built from a word list gives back the list. |
| FdtText.ShownNumbersRoundTrip | a1000_uboot2019/cmd/fdt.c:932-981 | Data of 1 to 64 bytes that is not text is shown as numbers that parse back to it. |
| FdtText.ShownStringsRoundTrip | a1000_uboot2019/cmd/fdt.c:943-955 | A word list that does not look like numbers, once set, is shown as those strings whenever it is shown as text. |
| Eeprom.LowByteIsRemainder | a1000_uboot2019/cmd/eeprom.c:84-96 | Storing an offset's upper part in an address byte keeps its low eight bits. |
| Eeprom.ChipSelectBits | a1000_uboot2019/cmd/eeprom.c:83-94 | In the chip select all bits of the device address are set, and the others are those of the offset divided by 256 or by 65536. |
| Eeprom.ReachedCell | a1000_uboot2019/cmd/eeprom.c:82-96 | The cell an offset reaches has that chip select, and the rest of the offset as its address. |
| Eeprom.CounterInPage | a1000_uboot2019/cmd/eeprom.c:200-208 | During a transfer the device's counter stays in its page. |
| Eeprom.CounterWraps | a1000_uboot2019/cmd/eeprom.c:200-208 | It goes on by one from byte to byte, and from the last cell of a page back to the first. |
| Eeprom.LenIsLargest | a1000_uboot2019/cmd/eeprom.c:99-120 | A transfer has the largest length that the request, the bus limit and the page computed from the low eight bits of the offset leave. |
| Eeprom.TransferFitsPage | a1000_uboot2019/cmd/eeprom.c:99-120 | With pages of at most 256 bytes a transfer never leaves the page it starts in. |
| Eeprom.SameCell | a1000_uboot2019/cmd/eeprom.c:99-120 | Within its page the device's wrapping counter reaches the same cell of the same chip as the flat offset. |
| Eeprom.TransferIsFlat | a1000_uboot2019/cmd/eeprom.c:122-157 | One write transfer to the page-wrapping device is a store to flat memory. |
| Eeprom.ReadTransferIsFlat | a1000_uboot2019/cmd/eeprom.c:122-157 | One read transfer likewise. |
| EepromTransfer.WriteMeans | a1000_uboot2019/cmd/eeprom.c:159-182 | Whichever transfers fail, a chunked write leaves the page-wrapping device as flat memory would be after storing exactly the bytes whose transfers succeed. |
| EepromTransfer.ReadMeans | a1000_uboot2019/cmd/eeprom.c:159-182 | Whichever transfers fail, a chunked read puts exactly the bytes whose transfers succeed into the buffer, from flat memory, and leaves the device as it was. |
| EepromTransfer.WriteIsFlat | a1000_uboot2019/cmd/eeprom.c:194-210 | When no transfer of the request fails and it does not overflow, a chunked write is one flat store of the buffer. |
| EepromTransfer.ReadIsFlat | a1000_uboot2019/cmd/eeprom.c:184-192 | A chunked read is then one flat read into the buffer's front. |
| EepromRoundTrip.RoundTripIff | a1000_uboot2019/cmd/eeprom.c:184-210 | Reading back a range just written returns the buffer if and only if no cell was given two different bytes. |
| EepromTransfer.OthersUnchanged | a1000_uboot2019/cmd/eeprom.c:159-182 | Whichever transfers fail, cells outside the range never change, and a read changes none. |
| EepromRoundTrip.AliasIff | a1000_uboot2019/cmd/eeprom.c:82-96 | Two offsets share a cell if and only if they agree within the chip and their block numbers differ only in bits the device address sets. |
| EepromRoundTrip.CellsDistinct | a1000_uboot2019/cmd/eeprom.c:94 | Block numbers that fit a byte and leave the device-address bits alone give every offset its own cell. |
| EepromPages.FitsAlwaysIff | a1000_uboot2019/cmd/eeprom.c:99-120 | Transfers stay within their page for every request if and only if a page has at most 256 bytes or transfers are single bytes. |
| EepromPages.FlatAlwaysIff | a1000_uboot2019/cmd/eeprom.c:99-120 | Writes are flat for every device address, contents, offset and buffer if and only if a page has at most 256 bytes or transfers are single bytes. |
| EepromPages.BigPagesAreNotFlat | a1000_uboot2019/cmd/eeprom.c:108-112 | With larger pages, and any device address, a two-byte write across the end of the first page leaves its second cell as it was. |
| EepromCode.OverflowDoesNothing | a1000_uboot2019/cmd/eeprom.c:162-167 | A request whose end passes 32 bits transfers nothing and returns 0; any other nonempty one makes a transfer. |
| EepromCode.SuccessIffLastSucceeds | a1000_uboot2019/cmd/eeprom.c:172 | The return code is that of the last transfer alone, whose number follows from the offsets. |
| EepromCode.TrustworthyIff | a1000_uboot2019/cmd/eeprom.c:164-181 | A 0 return means that every transfer succeeded if and only if the request fits one transfer. |
| EepromCode.LostChunk | a1000_uboot2019/cmd/eeprom.c:172 | In every longer write a failing first transfer goes unreported: 0 is returned, the first cell keeps its byte, and the device is not left as the flat store would leave it. |
| EepromCode.LostChunkExample | a1000_uboot2019/cmd/eeprom.c:172 | Such a write: 33 bytes on a device with pages of 32. |
| EepromTransfer.Device.EepromAddr | a1000_uboot2019/cmd/eeprom.c:77-97 | The address bytes of a transfer: the first has the bits of the device address and, outside them, those of the block number; the others hold the offset within the chip. |
| EepromTransfer.Device.EepromRwBlock | a1000_uboot2019/cmd/eeprom.c:122-157 | One transfer moves its part of the buffer, or nothing when it fails. |
| EepromTransfer.Device.EepromRw | a1000_uboot2019/cmd/eeprom.c:159-182 | The chunk loop leaves device, buffer and return code as specified for every outcome of the transfers. |
| EepromTransfer.Device.EepromRead | a1000_uboot2019/cmd/eeprom.c:184-192 | Reads the flat contents of exactly the offsets whose transfers succeed and leaves the device as it was. |
| EepromTransfer.Device.EepromWrite | a1000_uboot2019/cmd/eeprom.c:194-210 | Leaves the device as the flat store of exactly the bytes whose transfers succeed, and the buffer unchanged. |
| EthswTable.TableIsUnambiguous | a1000_uboot2019/cmd/ethsw.c:128-577 | No command of the table is empty, starts like an optional prefix, or stands there twice. |
| EthswWords.VisitKeeps | a1000_uboot2019/cmd/ethsw.c:1011-1016 | Visiting one word keeps: words before the cursor have their keyword, words behind it have theirs or none, and the first address is known. |
| EthswWords.ScanEnds | a1000_uboot2019/cmd/ethsw.c:1011-1016 | After the last word every word has the keyword that it and the two words before it determine. |
| EthswParse.Command.MatchWords | a1000_uboot2019/cmd/ethsw.c:1011-1016 | The nested loops over words and keywords, with matchers that write ahead and advance the word index, give every word that keyword. |
| EthswParse.Command.MatchWord | a1000_uboot2019/cmd/ethsw.c:1012-1015 | Only the keyword spelled by the word has an effect. |
| EthswParse.Command.KeywordMatchGen | a1000_uboot2019/cmd/ethsw.c:749-760 | Writes the identifier of a word that spells the keyword. |
| EthswParse.Command.KeywordMatchPort | a1000_uboot2019/cmd/ethsw.c:763-783 | port with its number; the identifier is written even when the number is missing. |
| EthswParse.Command.KeywordMatchVlan | a1000_uboot2019/cmd/ethsw.c:786-826 | vlan with a number, or with add or del and a number. |
| EthswParse.Command.KeywordMatchPvid | a1000_uboot2019/cmd/ethsw.c:829-848 | pvid with or without a number. |
| EthswParse.Command.KeywordMatchMacAddr | a1000_uboot2019/cmd/ethsw.c:851-877 | add and del with the first address of the command. |
| EthswParse.Command.KeywordMatchAggr | a1000_uboot2019/cmd/ethsw.c:880-899 | aggr with or without a number. |
| EthswParse.GreedyNeverRejects | a1000_uboot2019/cmd/ethsw.c:902-950 | In a command the prefix it splits at is the longest that occurs, so taking the longest is never wrong. |
| EthswParse.SplitUnique | a1000_uboot2019/cmd/ethsw.c:902-999 | A command splits into prefix and row in one way only. |
| EthswParse.Command.CmdKeywordsOptCheck | a1000_uboot2019/cmd/ethsw.c:902-950 | Moves behind the longest optional prefix that occurs. |
| EthswParse.Command.CmdKeywordsCheck | a1000_uboot2019/cmd/ethsw.c:956-999 | Finds the row that is the whole rest and stores its function, or finds that there is none. |
| EthswParse.Command.KeywordsFind | a1000_uboot2019/cmd/ethsw.c:1002-1048 | Success if and only if the words are a prefix and a row with a function, failure if and only if the row has none, usage otherwise; the function stored is the row's. |
| EthswParse.UnknownWord | a1000_uboot2019/cmd/ethsw.c:1018-1021 | A command has no unrecognised word, so the separate check for one changes no answer. |
| EthswParse.DefineFunctions | a1000_uboot2019/cmd/ethsw.c:721-747 | Registering fills the rows that have no function yet and touches no other. |
| EthswParse.FirstDriverWins | a1000_uboot2019/cmd/ethsw.c:729-744 | A second driver supplies only what the first left out, and help stays help. |
| EthswParse.DoEthsw | a1000_uboot2019/cmd/ethsw.c:1067-1083 | What is called is the function of the command's row, and nothing is called unless the words are a command whose row has one; a command without a function returns 1, anything else -1. |
| EthswMeaning.RowIsOffered | a1000_uboot2019/cmd/ethsw.c:128-577 | Every row of the table is something a help text offers, with the driver function or help text for that subject and action. |
| EthswMeaning.OfferHasRow | a1000_uboot2019/cmd/ethsw.c:15-121 | Whatever a help text offers has such a row. |
| EthswMeaning.SpokenIsSplit | a1000_uboot2019/cmd/ethsw.c:902-999 | An optional port, an optional VLAN and an offered phrase are recognised, and with a driver registered stand for its function for that subject and action. |
| EthswMeaning.SplitIsSpoken | a1000_uboot2019/cmd/ethsw.c:902-999 | Nothing else is recognised. |
| EthswMeaning.RegisteredCommand | a1000_uboot2019/cmd/ethsw.c:721-1083 | From the words to the driver: what is called for a command is the registered driver's function for its subject and action, and for words that are no command nothing. |

## Left out

- Hardware: register access, delays, I2C and flash drivers, and `readl` are replaced by geometry, contents and
  outcome parameters; the floppy byte poll and the interrupt waits are assumed to end.
- FloppyRead.FdcReadData: a transfer error overwrites only the result bytes, which the model does not keep; a READ
  command whose answer is not "no response" is taken to have been issued. Requests may reach beyond the last
  block of the disk; the bytes promised are then those the command's coordinates address. The bytes are promised for
  drive numbers that leave the head-select bit free, as the numbers 0 to 3 do; the boot command, which is not
  modelled, checks the number before it reads. The controller's implied seek is not relied on: a READ is
  taken to find nothing unless the heads already stand on its track.
- `fdc_check_drive`, `fdc_setup` and the boot command of the floppy driver.
- FlashCommands.AddrSpecLength: the textual parsing of addresses, the bank:sector form and the MTD device
  form; only the numeric part is modelled.
- FlashCommands.SectProtect: the variant with hardware protection, where a sector can fail by itself.
- Machine words are 64 bits wide (`ulong` on a 64-bit target); sector indices fit the `short` that holds them.
- StorageApi.Specs.ApiDevEnum: the network lookup is a constant answer, and the hardware address it copies is
  not kept; opening, reading and closing devices are not modelled.
- EfiBuild.BuildMemTable: allocation failure, descriptors larger than the structure, and the map header; the
  descriptor bytes beyond the five fields are not modelled.
- EfiPrint.PrintMemTable: the text of a line and the key of attribute names behind the listing.
- ArmFooter.ComputeCrc: lengths of 2^31 bytes and more, where the loop's `int` index would overflow; the
  footer parsing around the check.
- FdtPrint.Print: unknown tags, properties with a negative length, a missing node name, and the form with a
  property argument; libfdt's decoding of the structure block into tags.
- FdtProp.FdtParseProp: what happens when the words run out inside brackets (the code reads past the argument
  list; the model answers OutOfWords), and the size of the caller's data area.
- FdtText.PutStrings: text that ends in a newline is printed from memory behind the data, which the model
  takes to be a NUL where the classifier found one.
- EepromTransfer.Device.EepromRw: a failed transfer is taken to move nothing; FRAM devices without a chunk
  limit, the driver-model I2C calls and the write delay are not modelled.
- EthswParse.DoEthsw: words enter as keyword names, numbers, addresses or other text; the values of port,
  VLAN and group numbers and the address stored are not kept, nor what the called function does.
- The device-tree commands other than printing, `get name`, `get size` and `set`; `bootm`, `date`, `binop`,
  `elf` and the memory commands: dispatch and console output.
