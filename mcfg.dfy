/** `src/sdt/mcfg.rs`: the PCI Express memory-mapped configuration table (section 4.1.2 of the
    PCI Firmware Specification 3.0). After the header and 8 reserved bytes the table holds an
    array of 16-byte packed entries, one per ECAM region. */
module McfgEntries {
  import opened Bytes
  import opened Layout
  import opened Sdt

  const MCFG_PREFIX: nat := 44
  const ENTRY_SIZE: nat := 16

  /** Field widths of the packed `Entry`: ecam_base, segment, bus_start, bus_end, reserved. */
  const EntryLayout: seq<nat> := [8, 2, 1, 1, 4]

  lemma EntryLayoutFacts()
    ensures Size(EntryLayout) == ENTRY_SIZE
    ensures Offset(EntryLayout, 1) == 8 && Offset(EntryLayout, 2) == 10
    ensures Offset(EntryLayout, 3) == 11 && Offset(EntryLayout, 4) == 12
  {
    assert Offset(EntryLayout, 1) == 8;
    assert Offset(EntryLayout, 2) == 10;
    assert Offset(EntryLayout, 3) == 11;
    assert Offset(EntryLayout, 4) == 12;
    assert Offset(EntryLayout, 5) == 16;
  }

  /** The number of entries `from_header_ptr_slice_of::<Entry, _>` gives a table of
      `|table|` bytes: whole 16-byte entries after the 44-byte prefix. */
  function EntryCount(table: seq<byte>): (n: nat)
    requires |table| >= MCFG_PREFIX
    ensures n == ViewFor(Mcfg, |table|).count
    ensures MCFG_PREFIX + ENTRY_SIZE * n <= |table| < MCFG_PREFIX + ENTRY_SIZE * (n + 1)
  {
    SliceCount(Mcfg, |table|)
  }

  /** An `Entry` read out of memory. */
  datatype Entry = Entry(ecamBase: nat, segment: nat, busStart: nat, busEnd: nat, reserved: nat)

  function EntryValues(e: Entry): seq<nat>
  {
    [e.ecamBase, e.segment, e.busStart, e.busEnd, e.reserved]
  }

  /** `read_unaligned` of the packed `Entry` over `bytes`. */
  function DecodeEntry(bytes: seq<byte>): (e: Entry)
    requires |bytes| >= ENTRY_SIZE
    ensures Fits(EntryLayout, EntryValues(e))
  {
    EntryLayoutFacts();
    var vs := FieldsOf(EntryLayout, bytes);
    Entry(vs[0], vs[1], vs[2], vs[3], vs[4])
  }

  /** The 16 bytes firmware stores for an entry whose fields fit their widths. */
  function EncodeEntry(e: Entry): (b: seq<byte>)
    requires Fits(EntryLayout, EntryValues(e))
    ensures |b| == ENTRY_SIZE
  {
    EntryLayoutFacts();
    Encode(EntryLayout, EntryValues(e))
  }

  /** Decoding a stored entry gives it back, and re-encoding a decoded entry gives back its
      16 bytes: the entry layout covers its bytes with no gap and no overlap. */
  lemma EntryRoundTrip(e: Entry, bytes: seq<byte>)
    requires Fits(EntryLayout, EntryValues(e)) && |bytes| >= ENTRY_SIZE
    ensures DecodeEntry(EncodeEntry(e)) == e
    ensures EncodeEntry(DecodeEntry(bytes)) == bytes[..ENTRY_SIZE]
  {
    EntryLayoutFacts();
    FieldsOfEncode(EntryLayout, EntryValues(e));
    var vs := FieldsOf(EntryLayout, bytes);
    assert EntryValues(DecodeEntry(bytes)) == vs;
    EncodeFields(EntryLayout, bytes);
  }

  /** Each field of a decoded entry is the little-endian number at its offset: ecam_base at
      bytes 0..8, segment at 8..10, bus_start at 10, bus_end at 11, reserved at 12..16. */
  lemma DecodeEntryFields(bytes: seq<byte>)
    requires |bytes| >= ENTRY_SIZE
    ensures var e := DecodeEntry(bytes);
            e.ecamBase == LeAt(bytes, 0, 8) && e.segment == LeAt(bytes, 8, 2) &&
            e.busStart == bytes[10] as nat && e.busEnd == bytes[11] as nat &&
            e.reserved == LeAt(bytes, 12, 4)
  {
    EntryLayoutFacts();
    forall k | 0 <= k < 5
      ensures FieldsOf(EntryLayout, bytes)[k] == Field(EntryLayout, bytes, k)
    {
      FieldsOfIndex(EntryLayout, bytes, k);
    }
    FieldIsSlice(EntryLayout, bytes, 2);
    FieldIsSlice(EntryLayout, bytes, 3);
    assert bytes[10..11] == [bytes[10]] && bytes[11..12] == [bytes[11]];
  }

  /** Entry `i`: the packed entry at table bytes `[44 + 16 i, 60 + 16 i)`. */
  function EntryAt(table: seq<byte>, i: nat): Entry
    requires |table| >= MCFG_PREFIX && i < EntryCount(table)
  {
    var start := MCFG_PREFIX + ENTRY_SIZE * i;
    assert start + ENTRY_SIZE <= MCFG_PREFIX + ENTRY_SIZE * EntryCount(table);
    DecodeEntry(table[start..start + ENTRY_SIZE])
  }

  /** `Mcfg::entries`: every whole entry, in index order. */
  function Entries(table: seq<byte>): (es: seq<Entry>)
    requires |table| >= MCFG_PREFIX
    ensures |es| == EntryCount(table)
    ensures forall i :: 0 <= i < |es| ==> es[i] == EntryAt(table, i)
  {
    seq(EntryCount(table), i requires 0 <= i < EntryCount(table) => EntryAt(table, i))
  }

  /** Bytes after the last whole entry are ignored: a tail shorter than an entry, appended to
      a table whose entries end exactly at its end, changes no entry and adds none. */
  lemma TrailingBytesIgnored(table: seq<byte>, tail: seq<byte>)
    requires |table| >= MCFG_PREFIX && (|table| - MCFG_PREFIX) % ENTRY_SIZE == 0
    requires |tail| < ENTRY_SIZE
    ensures Entries(table + tail) == Entries(table)
  {
    var t := table + tail;
    assert EntryCount(t) == EntryCount(table);
    forall i | 0 <= i < EntryCount(table)
      ensures EntryAt(t, i) == EntryAt(table, i)
    {
      var start := MCFG_PREFIX + ENTRY_SIZE * i;
      assert start + ENTRY_SIZE <= |table|;
      assert t[start..start + ENTRY_SIZE] == table[start..start + ENTRY_SIZE];
    }
  }
}
