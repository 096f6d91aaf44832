# bolt-os/acpi in Dafny

A model of the table locator and parsers of `bolt-os/acpi`, a `no_std` Rust crate. The crate
finds and reads ACPI firmware tables through a `Bridge` that the host kernel supplies to map
physical memory.

Physical memory is a function from addresses to bytes. A mapped table is the sequence of bytes
its mapping covers. The `Bridge` keeps a ledger of live mappings, so the model can say exactly
which mappings each operation creates and removes.

| file | module | models |
|---|---|---|
| `wrappers.dfy` | `Wrappers` | `Option`, a walk step (`Done`, `Yield`, `Panic`) and a result that may panic |
| `bytes.dfy` | `Bytes` | bytes, little-endian integers (`u16_le`, `u32_le`, `u64_le`), reads of physical memory |
| `layout.dfy` | `Layout` | `#[repr(C, packed)]` layouts: field offsets, encoding and decoding of a packed struct |
| `sdt.dfy` | `Sdt` | the common header, signatures, the `Sdt` sizing rule, the RSDP fields, the `nth`-match filter |
| `mapping.dfy` | `Mapping` | `Bridge` and the `Mapped` handle (`src/sdt.rs`) |
| `root_table.dfy` | `RootTables` | `RootTable::{new, all_tables, get_table_by_signature, get_table}` |
| `madt.dfy` | `MadtRecords` | the MADT prefix, record layouts, accessors and the `entries` walker (`src/sdt/madt.rs`) |
| `rhct.dfy` | `RhctNodes` | the RHCT prefix, `get_node`, `nodes`, `HartInfo::entries` and the node decoders (`src/sdt/rhct.rs`) |
| `mcfg.dfy` | `McfgEntries` | the MCFG entry array (`src/sdt/mcfg.rs`) |
| `fadt.dfy` | `FadtFields` | the 276-byte FADT layout, `flags()` and `dsdt()` (`src/sdt/fadt.rs`) |
| `legacy_madt.dfy` | `LegacyMadt` | the older raw-cursor MADT walker `iter_madt` (`src/madt.rs`) |

The code changes state in two places, and those are classes with `modifies` clauses:

- The `Mapped` lifecycle: `Bridge`, `Mapped`, `RootTable` and its `all_tables` iterator.
- The three iterators that mutate a captured cursor: `MadtEntries`, `HartInfoNodes` and
  `LegacyCursor`.

Each iterator method is tied to a step function over the bytes, such as
`ensures (r, offset) == StepAt(ics, old(offset))`. The lemmas then state what the source
promises about that step function: bounds, storage order, tiling, and when the walk panics.
Everything else (sizing, field decoding, the filter, the node decoders) is functions and
lemmas.

The walkers, `get_node`, `map_full` and `get_table` model the panics that safe code can reach
in them as outcomes, not preconditions:

- The `entries` walkers and `HartInfo::entries` return `Panic` / `Panics`.
- `get_node` returns `Underflow`.
- `map_full`, and so `get_table`, returns `Panics` on a signature mismatch (the `assert!`) and
  on a table shorter than the fixed part of its type (the subtraction in
  `header_dynamic_size`).

The RHCT node accessors are the exception: the underflow of `IsaString::len`, the slice panic
of `IsaString::as_bytes` and the overflow of the `1 << field` block sizes are preconditions of
`RhctNodes.IsaStringLen`, `IsaStringBytes`, `IsaStringFacts`, `BlockSize` and `BlockSizes`, as
listed under "## Left out".

`src/madt.rs` is not compiled: `src/lib.rs:12` declares only `sdt`. It is modelled on its own,
as a contrast to the checked walker.

## Model

| member | source | states |
|---|---|---|
| Layout.FieldOfEncode | src/sdt.rs:173-185 | reading field `k` of the packed encoding of values that fit their widths gives value `k` back |
| Layout.FieldsOfEncode | src/sdt.rs:173-185 | decoding every field of a packed encoding gives back all the values |
| Layout.EncodeFields | src/sdt.rs:173-185 | every byte string of the layout's size is the encoding of its decoded fields (a packed struct has no gaps or overlaps) |
| Sdt.HeaderLayoutFacts | src/sdt.rs:173-185 | the packed header is 36 bytes, with `length` at byte 4, `revision` at 8, `oem_id` at 10, `oem_table_id` at 16 and the last three u32 at 24, 28, 32 |
| Sdt.ParseHeader | src/sdt.rs:140-145 | the header of a table is its first 36 bytes |
| Sdt.AccessorsAgree | src/sdt.rs:175-178 | `signature`, `length` and `revision` read the same bytes as the full field decoding |
| Sdt.HeaderRoundTrip | src/sdt.rs:173-185 | decoding the header built from fields that fit their widths gives those fields back |
| Sdt.HeaderBytesRoundTrip | src/sdt.rs:173-185 | every 36-byte header is the encoding of its own decoded fields |
| Sdt.DebugSignatureSanitises | src/sdt.rs:158-164 | the sanitised bytes that `Debug` formats have one byte per signature byte; a byte is kept iff it is ASCII and every other byte becomes `?` (63); the result is all ASCII (so `from_utf8(..).unwrap()` cannot panic), and sanitising twice changes nothing |
| Sdt.SignaturesDistinct | src/sdt.rs:107-112 | distinct table types have distinct `SIGNATURE`s (RSDT, XSDT, APIC, RHCT, MCFG, FACP), so a signature names one type |
| Sdt.SignaturesPrintable | src/sdt.rs:156-164 | every `SIGNATURE` is four ASCII capital letters, so sanitising leaves it unchanged |
| Sdt.PrefixSizes | src/lib.rs:36-39 | each prefix size (`size_of_unsized`: RootSdt 36, Madt 44, Rhct 56, Mcfg 44) is the packed size of the fields before the trailing array |
| Sdt.HeaderDynamicSize | src/sdt.rs:301-308 | the dynamic size plus the prefix size is the header's `length`; a `length` below the prefix is outside the contract |
| Sdt.SliceCount | src/sdt.rs:310-316 | the element count `n` is the floor of the dynamic size over the stride: `prefix + n*stride <= length < prefix + (n+1)*stride` |
| Sdt.ViewFor | src/sdt.rs:310-316 | a whole-table view has the table's type; for an unsized type its count of whole elements fits in `length`, and the FADT carries no count |
| Sdt.RsdpLayoutFacts | src/lib.rs:21-34 | in the `#[repr(C)]` RSDP, `revision` is at byte 15, `rsdt_addr` at 16, `xsdt_addr` at 24 and `x_checksum` at 32 |
| Sdt.RootKindFor | src/sdt.rs:232-239 | revision < 2 selects the RSDT with 4-byte entries; otherwise the XSDT with 8-byte entries |
| Sdt.RootAddress | src/sdt.rs:232-237 | the root table's address; below revision 2 it is the 32-bit `rsdt_addr` |
| Sdt.NthMatch | src/sdt.rs:255-263 | `filter(signature == sig).nth(n)`: a result is a position whose signature equals `sig` with exactly `n` matches before it; there is none iff at most `n` signatures match |
| Sdt.NthMatchComplete | src/sdt.rs:255-263 | conversely, a matching position with exactly `n` matches before it is what `nth(n)` returns |
| Sdt.NthMatchOrdered | src/sdt.rs:260-262 | matches come out in root-array order: match `n+1` exists only after match `n`, at a later position |
| Mapping.Bridge.Map | src/sdt.rs:17 | `map` hands out a fresh non-zero virtual address; the ledger gains exactly that mapping of `size` bytes at `phys` |
| Mapping.Bridge.Remap | src/sdt.rs:18 | `remap` adds a fresh mapping of the same physical start with the new size and leaves the old one live |
| Mapping.Bridge.Unmap | src/sdt.rs:19 | `unmap` removes exactly the given mapping |
| Mapping.Mapped.constructor | src/sdt.rs:38-41 | `Mapped::new` wraps a non-null pointer; null is excluded |
| Mapping.Mapped.Bytes | src/sdt.rs:80-86 | a live handle reads the physical bytes its mapping covers, at least the 36 header bytes |
| Mapping.Mapped.TableHeader | src/sdt.rs:80-86 | dereferencing a live handle gives the header stored in physical memory at the mapping's start |
| Mapping.Mapped.Drop | src/sdt.rs:31-35 | drop unmaps the handle's own mapping once and changes nothing else; a second drop is excluded because the mapping is gone |
| Mapping.Mapped.IntoInner | src/sdt.rs:43-47 | `into_inner` returns the pointer and does not unmap (the ledger is untouched) |
| Mapping.Mapped.CloneHeader | src/sdt.rs:51-58 | `clone_header` adds one mapping of `length` bytes at the same physical start; the original handle stays live with the same header |
| Mapping.Mapped.Clone | src/sdt.rs:88-97 | `Clone` of a table handle does the same and keeps the table view |
| Mapping.Mapped.MapFull | src/sdt.rs:60-77 | `map_full` panics iff the signature differs (before any mapping) or an unsized table is shorter than its prefix (after the remap, with every earlier mapping kept and the full-length one added); otherwise it sizes the view from the header, and the ledger loses the header mapping and gains the full one |
| Mapping.MapHeader | src/sdt.rs:318-321 | `map_header` adds one 36-byte mapping at `phys`, and its handle reads the header there |
| Mapping.MapTable | src/sdt.rs:323-327 | `map_table` maps only 36 bytes but sizes the view from the header's `length` |
| RootTables.NewAsWritten | src/sdt.rs:231-245 | `RootTable::new` as written: the revision and root type are selected correctly and the count is the sizing rule's, but the mapping the stored pointer refers to is gone when `new` returns, and it covered only the header |
| RootTables.RootTable.constructor | src/sdt.rs:231-245 | the corrected `new`: keeps `acpi_revision` unchanged, selects RSDT/XSDT by revision, keeps one live mapping of the whole root table, and the pointer array holds the count the sizing rule gives, read from the slots after the header |
| RootTables.RootTable.EntryRead | src/sdt.rs:205-209 | slot `i` of the mapped pointer array holds the little-endian address `entries[i]` |
| RootTables.RootTable.AllTables | src/sdt.rs:247-253 | `all_tables` starts a fresh iterator at the first pointer of this root table |
| RootTables.AllTablesIter.Next | src/sdt.rs:205-211 | one step of `all_tables`: past the end it yields nothing and maps nothing; otherwise it yields table `index`, the index moves by one, and the only mapping left behind is the whole of that table |
| RootTables.MapWhole | src/sdt.rs:247-253 | `map_header` then `clone_header`, then drop of the probe: exactly one new mapping, `length` bytes at `phys` |
| RootTables.AllTablesIter.NextMatching | src/sdt.rs:260-261 | `filter(..).next()`: every skipped table does not match and is unmapped; a returned table matches and is the only new mapping |
| RootTables.AllTablesIter.SkipMatch | src/sdt.rs:260-262 | one skipped match in `nth`: the match count behind the iterator grows by one, and the mappings are unchanged |
| RootTables.AllTablesIter.AdvanceBy | src/sdt.rs:260-262 | `nth`'s skipping half: it succeeds iff `n` further matches exist, and leaves no mapping behind |
| RootTables.AllTablesIter.TakeMatch | src/sdt.rs:260-262 | `nth`'s returning half: with `n` matches behind it, it returns a table iff `NthMatch` finds one, and that table is the one returned |
| RootTables.RootTable.GetTableBySignature | src/sdt.rs:255-263 | returns a table iff `NthMatch(signatures, sig, index)` finds one; the result is a live whole-table mapping of exactly that table; no other mapping is left behind |
| RootTables.RootTable.GetTable | src/sdt.rs:265-268 | `Value(None)` exactly when `get_table_by_signature(T::SIGNATURE, index)` is None; a panic exactly when the matched table is of an unsized type and shorter than its prefix, with every earlier mapping kept; otherwise the table, sized by `from_header_ptr`, with its header handle unmapped |
| RootTables.RootTable.Drop | src/sdt.rs:216-220 | dropping the (corrected) root table unmaps its root mapping and nothing else |
| MadtRecords.LocalIntcAddr | src/sdt/madt.rs:36-39 | `local_intc_addr` is the u32 field after the header (byte 36) |
| MadtRecords.MadtFlags | src/sdt/madt.rs:31-34 | `flags` is the u32 at byte 40, with all 32 bits kept |
| MadtRecords.Region | src/sdt/madt.rs:6-12 | the record region is the table after its 44-byte prefix: `length - 44` bytes, which is the element count the sizing rule gives the `[u8]` tail |
| MadtRecords.DispatchMatchesNumbering | src/sdt/madt.rs:58-78 | tags 0x00-0x05, 0x09-0x10 and 0x18 reach their named shape and each shape is reached only by its own tag; every other tag is `Unknown` |
| MadtRecords.RecordSizes | src/sdt/madt.rs:116-429 | the size of each record shape is the packed size of its declared fields (the Local APIC NMI one with its declared 4-byte UID, 9 bytes) |
| MadtRecords.LocalApicNmiFieldsAsWritten | src/sdt/madt.rs:251-276 | with the declared layout the accessors read the u32 at byte 2, the u16 at 6 and byte 8, nine bytes in all |
| MadtRecords.LocalApicNmiAsWrittenOverreads | src/sdt/madt.rs:251-257 | on a standard 6-byte record the declared layout is too long: the UID absorbs the flags and LINT bytes, and `flags` and `local_apic_lintn` come from the next three bytes |
| MadtRecords.LocalApicFields | src/sdt/madt.rs:146-163 | processor UID at byte 2, APIC ID at byte 3, flags the u32 at byte 4 |
| MadtRecords.IoApicFields | src/sdt/madt.rs:174-192 | I/O APIC ID at byte 2, address the u32 at byte 4, GSI base the u32 at byte 8 |
| MadtRecords.InterruptSourceOverrideFields | src/sdt/madt.rs:212-228 | bus and source at bytes 2 and 3, GSI the u32 at byte 4, flags the u16 at byte 8 |
| MadtRecords.NmiSourceFields | src/sdt/madt.rs:238-249 | flags the u16 at byte 2, GSI the u32 at byte 4 |
| MadtRecords.LocalApicNmiFields | src/sdt/madt.rs:259-276 | the corrected layout of section 5.2.12.7 of ACPI 6.5, six bytes: UID at byte 2, flags the u16 at byte 3, LINT at byte 5 |
| MadtRecords.LocalApicNmiLayoutsShareUidByte | src/sdt/madt.rs:251-262 | on a record long enough for both layouts the declared UID's low byte is the standard UID |
| MadtRecords.LocalX2ApicUid | src/sdt/madt.rs:294-299 | the processor UID is the u32 at byte 12 |
| MadtRecords.LocalX2ApicNmiFields | src/sdt/madt.rs:310-320 | flags the u16 at byte 2, UID the u32 at byte 4 |
| MadtRecords.GicCpuInterfaceUid | src/sdt/madt.rs:366-371 | the processor UID is the u32 at byte 8 |
| MadtRecords.RiscvIntcFields | src/sdt/madt.rs:452-468 | flags the u32 at byte 4 (all bits kept), hart ID the u64 at byte 8, UID the u32 at byte 16 |
| MadtRecords.IsStartableLowBits | src/sdt/madt.rs:470-474 | `is_startable` holds iff bit 0 or bit 1 of the flags is set; no other bit matters |
| MadtRecords.UnknownData | src/sdt/madt.rs:110-114 | `Unknown::data` is the record after its 2-byte header, `total_size - 2` bytes |
| MadtRecords.StepFacts | src/sdt/madt.rs:41-82 | one step: a yielded record lies inside the region, starts at the old offset, is typed by its first byte, and the offset moves by exactly its `total_size`; the walk ends iff fewer than 2 bytes remain or the record overruns, and then the offset stays so every later call ends too |
| MadtRecords.MadtEntries.constructor | src/sdt/madt.rs:41-42 | the walk starts at offset 0 of the record region |
| MadtRecords.MadtEntries.Next | src/sdt/madt.rs:43-81 | one call of the closure is one `StepAt`: `total_size` 0 panics at `bytes[0]`, an unknown record of size 1 panics in the subtraction |
| MadtRecords.Walk | src/sdt/madt.rs:41-82 | the whole walk ends inside the region |
| MadtRecords.WalkTiles | src/sdt/madt.rs:41-82 | the yielded records, concatenated, are exactly the region bytes walked over, in storage order with no gap; a walk that did not panic stopped where no record fits |
| MadtRecords.WalkRecords | src/sdt/madt.rs:58-78 | every yielded record is non-empty and typed by its first byte, and an `Unknown` one has its 2-byte header |
| RhctNodes.RhctPrefix | src/sdt/rhct.rs:44-62 | `flags` (all bits), `time_base_frequency`, `len` (`nodes_len`) and `nodes_offset` are the u32/u64/u32/u32 at bytes 36, 40, 48, 52 |
| RhctNodes.Nodes | src/sdt/rhct.rs:15-23 | the node region is the table after its 56-byte prefix, `length - 56` bytes, the count the sizing rule gives |
| RhctNodes.GetNodeAsWrittenOverreads | src/sdt/rhct.rs:72-80 | as written, an offset at the very end of the region passes `get(offset..)`, and the node header is read from beyond the table |
| RhctNodes.GetNode | src/sdt/rhct.rs:72-80 | the corrected lookup underflows iff the offset is below 56, and finds a node iff its header and its `len` bytes lie in the region, at the rebased offset |
| RhctNodes.GetNodeAgrees | src/sdt/rhct.rs:72-80 | the correction changes only the overreading case, which is exactly a rebased offset within 6 bytes of the region's end |
| RhctNodes.ScanFacts | src/sdt/rhct.rs:83-94 | a walk of `n` steps yields at most `n` nodes, and each is a HART_INFO node lying in the region and at least 12 bytes long |
| RhctNodes.HartInfoUid | src/sdt/rhct.rs:168-186 | `acpi_processor_uid` is the third field of the packed `HartInfo` prefix, the u32 at node byte 8 |
| RhctNodes.EmptyTableNoHarts | src/sdt/rhct.rs:59-94 | `nodes()` yields at most `len()` nodes, a 32-bit count, and none when `is_empty` holds |
| RhctNodes.EmptyNodeStays | src/sdt/rhct.rs:141-144 | a found node with `is_empty()` does not move the walk: the next step is at the same offset, or sizing it panics |
| RhctNodes.HartInfoNodes.constructor | src/sdt/rhct.rs:83-85 | the walk starts at `nodes_offset` with `nodes_len` steps to run |
| RhctNodes.HartInfoNodes.Visit | src/sdt/rhct.rs:85-93 | one call of the closure: a missing node leaves the offset, a found node moves it by its `len` and is kept iff it is HART_INFO; an offset below 56 and a HART_INFO node under 12 bytes panic |
| RhctNodes.HartInfoNodes.Next | src/sdt/rhct.rs:83-94 | `next` yields the first node `Scan` yields from the current state, and leaves the rest of the scan to later calls; it ends only when the step count is used up |
| RhctNodes.OffsetsCount | src/sdt/rhct.rs:160-180 | a HART_INFO node has `(len - 12) / 4` offsets, the floor, taken from the node's `len` and not from `offsets_len` |
| RhctNodes.Entries | src/sdt/rhct.rs:188-200 | `entries` yields one item per offset |
| RhctNodes.EntriesFacts | src/sdt/rhct.rs:188-200 | item `i` is the node the `i`-th offset names, lying in the region, of the kind its type selects (0 ISA string, 1 CMO, 2 MMU, else unknown); it panics iff `get_node` rejects the offset or an ISA-string or unknown node is shorter than its prefix |
| RhctNodes.UnknownData | src/sdt/rhct.rs:210-219 | `Unknown::data` is the node after its 6-byte header, `len - 6` bytes |
| RhctNodes.IsaStringFacts | src/sdt/rhct.rs:237-251 | `as_bytes` has `isa_string_len - 1` bytes, taken from node byte 8 on; `is_empty` holds iff it is empty |
| RhctNodes.BlockSize | src/sdt/rhct.rs:275-298 | a CMO block size `1 << field` is `2^field`, below 2^64, and its base-2 logarithm is the field |
| RhctNodes.CmoShifts | src/sdt/rhct.rs:259-267 | the three exponents are fields 2, 3 and 4 of the packed `CmoInfo` (node bytes 7, 8, 9) |
| RhctNodes.BlockSizes | src/sdt/rhct.rs:275-298 | `cbom_block_size`, `cbop_block_size` and `cboz_block_size` are 2 to the power of node bytes 7, 8 and 9 |
| RhctNodes.MmuType | src/sdt/rhct.rs:302-307 | `mmu_type` is the u16 at node byte 7 |
| McfgEntries.EntryLayoutFacts | src/sdt/mcfg.rs:30-38 | an entry is 16 packed bytes: `ecam_base` at 0, `segment` at 8, `bus_start` at 10, `bus_end` at 11, `reserved` at 12 |
| McfgEntries.EntryCount | src/sdt/mcfg.rs:18-20 | the count is the sizing rule's `(length - 44) / 16`: whole entries fit and one more does not |
| McfgEntries.DecodeEntry | src/sdt/mcfg.rs:26 | a decoded entry's fields fit their widths |
| McfgEntries.EntryRoundTrip | src/sdt/mcfg.rs:30-38 | encoding then decoding an entry gives it back, and every 16 bytes are the encoding of their decoding |
| McfgEntries.DecodeEntryFields | src/sdt/mcfg.rs:30-38 | the fields are the little-endian values of bytes 0..8, 8..10, 10, 11 and 12..16 |
| McfgEntries.Entries | src/sdt/mcfg.rs:24-27 | `entries` yields exactly `EntryCount` items, and item `i` is read from table bytes `[44 + 16i, 60 + 16i)` |
| McfgEntries.TrailingBytesIgnored | src/sdt/mcfg.rs:18-20 | fewer than 16 trailing bytes after whole entries change nothing |
| FadtFields.FadtLayoutFacts | src/sdt/fadt.rs:6-64 | the packed FADT is 276 bytes, with `dsdt` at byte 40, `flags` at 112 and `x_dsdt` at 140 |
| FadtFields.FadtBodyFacts | src/sdt/fadt.rs:9-63 | after the header the body has 55 fields in 240 bytes; `dsdt` and `flags` are 4 bytes wide and `x_dsdt` is 8 |
| FadtFields.FadtIsSized | src/sdt/fadt.rs:73-75 | `from_header_ptr` is a plain cast: every FADT gets the same view with no element count, whatever its `length` |
| FadtFields.Flags | src/sdt/fadt.rs:79-81 | `flags()` is the whole u32 at byte 112 (`from_bits_retain`) |
| FadtFields.Dsdt | src/sdt/fadt.rs:83-89 | `dsdt()` is the u64 `x_dsdt` at byte 140 when the header revision is at least 2, and otherwise the u32 `dsdt` at byte 40, zero-extended |
| FadtFields.BodyFieldOfImage | src/sdt/fadt.rs:6-64 | every body field of a FADT built from field values reads back its value at its packed offset |
| FadtFields.DsdtOfImage | src/sdt/fadt.rs:83-89 | on a FADT built from field values, `dsdt()` is the `x_dsdt` value from revision 2 on and the `dsdt` value before, and `flags()` is the `flags` value |
| LegacyMadt.LegacyPrefixSize | src/madt.rs:5-10 | `size_of::<Madt>()` is 44, the same prefix the newer MADT has |
| LegacyMadt.LegacyCursor.constructor | src/madt.rs:96-99 | the cursor starts at byte 44, and the end is the header's `length` from the table start |
| LegacyMadt.LegacyCursor.Next | src/madt.rs:101-135 | one call of the closure is one `LegacyStepAt` |
| LegacyMadt.LegacyStopsIffPastEnd | src/madt.rs:102-104 | the walk stops iff the cursor has reached the end, and then the cursor stays; a table no longer than its prefix yields nothing |
| LegacyMadt.LegacyAdvance | src/madt.rs:118-133 | a yielded record moves the cursor by its `len` byte; the walk panics iff the record is RISC-V INTC with a version other than 1 |
| LegacyMadt.LegacyUnknownSpan | src/madt.rs:126-129 | any other tag gives `Unknown(tag, span)`, where the span starts at the record's first byte and is exactly the `len` bytes the cursor steps over |
| LegacyMadt.ZeroLengthRepeats | src/madt.rs:133 | a record whose `len` is 0 is yielded again and again |
| LegacyMadt.LegacyReadsPastEnd | src/madt.rs:118-125 | nothing keeps a record inside the table: a RISC-V INTC tag in the last byte takes its hart ID from bytes past the end |
| LegacyMadt.LegacyAgreesWithRecords | src/madt.rs:108-125 | the legacy decodes of local APIC and RISC-V INTC records equal the field accessors of the packed record layouts |

## Left out

- The concrete `Bridge` and page tables. `map`, `remap` and `unmap` (src/sdt.rs:16-20) are an abstract class with a ledger of live mappings; virtual addresses are fresh counters.
- Pointer provenance, fat-pointer metadata, `NonNull` and `with_exposed_provenance`. Pointers are (address, size) spans and byte sequences.
- Reading outside a mapping. In the model a handle reads physical memory; it does not model the fault a read past a 36-byte mapping would cause.
- `Send`/`Sync` (src/sdt.rs:222-223): concurrency.
- `Debug`/`Display` other than signature sanitising, the `NodeType` debug names, `IsaString::as_str` (UTF-8 validation), the `bitflags!` internals and named flag constants, and `log::info!` (src/madt.rs:131): formatting and libraries.
- `Facs`, `PreferredPmProfile`, the boot-flag sets and the other FADT fields besides `dsdt`, `flags` and `x_dsdt`: declarations with no logic. Their widths are still part of the layout.
- The GIC distributor, MSI frame, redistributor, ITS, local APIC address override and multiprocessor wakeup records have layouts and sizes but no accessors, because the source defines none.
- Debug-build overflow checks versus release wrap-around: every unchecked subtraction is modelled as a panic (`Panic`, `Panics`, `Underflow`) or a precondition, never as a wrapped value.
- Sdt.HeaderDynamicSize: a `length` below the prefix size is a precondition of the function; the one safe caller, `Mapping.Mapped.MapFull`, tests that case first and returns `Panics` for it. `RootTables.NewAsWritten` reaches it through `map_table`, whose unsafe contract (a valid RSDP) is its precondition.
- RootTables.MapWhole: requires the table's `length` to cover its 36-byte header, which the closure in `all_tables` does not check; this is where the requirement on the callers below starts, for the same reason.
- RootTables.AllTablesIter.Next, NextMatching, SkipMatch, TakeMatch, AdvanceBy, RootTables.RootTable.GetTableBySignature and GetTable require every listed table's `length` to cover its 36-byte header: with a shorter `length` the full-length handle `clone_header` makes would read its header outside its own mapping, which the model does not represent.
- RhctNodes.HartInfoNodes.Visit, RhctNodes.HartInfoNodes.Next and RhctNodes.EntriesFacts are built on the corrected `RhctNodes.GetNode`. At an offset within 6 bytes of the region's end the source reads a node header past the table; if that header's `len` fits, `nodes()` advances (or panics on HART_INFO) and `entries` yields an item, where the model stays in place or panics. Bytes past the table are not part of the model.
- Sdt.RootAddress: states only that a revision-0/1 address fits 32 bits; the field offsets it reads are stated by `Sdt.RsdpLayoutFacts`.
- RhctNodes.EmptyNodeStays: states that a zero-length node stalls the walk for one step, not that the walk then runs its remaining steps on that node.
- RhctNodes.BlockSize: a shift of 64 or more (an overflow of `1 << field` on a 64-bit `usize`) is a precondition.
- RhctNodes.IsaStringLen: an `isa_string_len` of 0 (the underflow of `len - 1`) and a string longer than its node (the slice panic in `as_bytes`) are preconditions.
- RhctNodes.IsaStringBytes, RhctNodes.IsaStringFacts: the same two panics are preconditions here too.
- RhctNodes.BlockSizes: an exponent of 64 or more is a precondition, as for `RhctNodes.BlockSize`.
- RhctNodes.MmuType: states only the u16 range; the value is the field itself.
- Accessors of a MADT record shorter than its shape (the source casts it anyway) require the record to be complete; the walker still yields such records.
- Native-endian fields are read little-endian, which is what a little-endian host does: MCFG `ecam_base`, `segment` and `reserved`; the RHCT node `Header.len` and `revision` and `MmuType`; the RSDP `rsdt_addr` and `xsdt_addr`; the FADT `sci_int` (a width only, never read); and the fields of the legacy `Madt` and its records (`src/madt.rs`).
- A FADT shorter than 276 bytes (ACPI 1.0 tables are shorter) is outside the model, because `&Fadt` needs the whole structure.
- Tables other than RSDT, XSDT, MADT, RHCT, MCFG and FADT, and the RSDP checksum (the source does not check it).

## Findings

| source | as written | input that shows it | evidently intended | confidence | as-written member | corrected member |
|---|---|---|---|---|---|---|
| src/sdt.rs:231-245 | `RootTable::new` builds the root view with `map_table`, which maps only the 36 header bytes, and the handle is dropped (unmapped) at the end of the branch, while the stored `root_ptrs` keeps pointing into it | any RSDP: after `new` the ledger is unchanged and the pointer array's address is in no live mapping | keep a live mapping of the whole root table for the lifetime of the `RootTable` | not executed | RootTables.NewAsWritten | RootTables.RootTable.constructor |
| src/sdt/rhct.rs:72-80 | `get_node` checks `nodes.get(offset..)`, which accepts an offset equal to the region length, and then reads the 6-byte node header there | a table-relative offset equal to the table's `length` | a node is found only when its header and its `len` bytes lie in the region | not executed | RhctNodes.GetNodeAsWrittenOverreads | RhctNodes.GetNode |
| src/sdt/madt.rs:251-257 | `LocalApicNmi` declares `acpi_processor_uid` as `u32_le`, a 9-byte structure; section 5.2.12.7 of ACPI 6.5 gives a 1-byte UID in a 6-byte structure | a standard record `[4, 6, uid, f0, f1, lint]`: the UID reads `uid, f0, f1, lint` and the flags come from the next record | a 1-byte UID at byte 2, flags at byte 3, LINT at byte 5 | not executed | MadtRecords.LocalApicNmiAsWrittenOverreads | MadtRecords.LocalApicNmiFields |
