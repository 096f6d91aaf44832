/** `src/sdt/madt.rs`: the Multiple APIC Description Table. After its 44-byte prefix (header,
    `local_intc_addr`, `flags`) the table holds packed interrupt-controller records, each
    starting with a 1-byte type and a 1-byte total size (section 5.2.12 of ACPI 6.5). */
module MadtRecords {
  import opened Bytes
  import opened Layout
  import opened Wrappers
  import opened Sdt

  const MADT_PREFIX: nat := 44

  /** `Madt::local_intc_addr`: the u32 after the header. */
  function LocalIntcAddr(table: seq<byte>): (r: nat)
    requires |table| >= MADT_PREFIX
    ensures r == Field(PrefixLayout(Madt), table, 1) && r < Pow256(4)
  {
    PrefixSizes(Madt);
    assert Offset(PrefixLayout(Madt), 1) == 36;
    LeAt(table, 36, 4)
  }

  /** `Madt::flags`: all 32 bits of the flags word, undefined ones included
      (`from_bits_retain`). */
  function MadtFlags(table: seq<byte>): (r: nat)
    requires |table| >= MADT_PREFIX
    ensures r == Field(PrefixLayout(Madt), table, 2) && r < Pow256(4)
  {
    PrefixSizes(Madt);
    assert Offset(PrefixLayout(Madt), 2) == 40;
    LeAt(table, 40, 4)
  }

  /** The record region `ics`: every byte after the prefix, up to the table's `length`; its
      length is the count the sizing rule gives the trailing `[u8]`. */
  function Region(table: seq<byte>): (r: seq<byte>)
    requires |table| >= MADT_PREFIX
    ensures |r| == |table| - MADT_PREFIX == ViewFor(Madt, |table|).count
    ensures forall i :: 0 <= i < |r| ==> r[i] == table[MADT_PREFIX + i]
  {
    table[MADT_PREFIX..]
  }

  // ---------------------------------------------------------------- record types

  /** The record shapes `entries` dispatches to; `Unknown` is every other type byte. */
  datatype RecordType =
    | LocalApic | IoApic | InterruptSourceOverride | NmiSource | LocalApicNmi
    | LocalApicAddressOverride | LocalX2Apic | LocalX2ApicNmi | GicCpuInterface
    | GicDistributor | GicMsiFrame | GicRedistributor | GicInterruptTranslationService
    | MultiprocessorWakeup | RiscvIntc | Unknown

  /** The `match bytes[0]` of `entries`. */
  function RecordTypeOf(tag: byte): RecordType
  {
    match tag
    case 0x00 => LocalApic
    case 0x01 => IoApic
    case 0x02 => InterruptSourceOverride
    case 0x03 => NmiSource
    case 0x04 => LocalApicNmi
    case 0x05 => LocalApicAddressOverride
    case 0x09 => LocalX2Apic
    case 0x0a => LocalX2ApicNmi
    case 0x0b => GicCpuInterface
    case 0x0c => GicDistributor
    case 0x0d => GicMsiFrame
    case 0x0e => GicRedistributor
    case 0x0f => GicInterruptTranslationService
    case 0x10 => MultiprocessorWakeup
    case 0x18 => RiscvIntc
    case _ => Unknown
  }

  /** The type byte of each named shape, as section 5.2.12 of ACPI 6.5 numbers them. */
  function TagOf(t: RecordType): (tag: byte)
    requires t != Unknown
  {
    match t
    case LocalApic => 0x00
    case IoApic => 0x01
    case InterruptSourceOverride => 0x02
    case NmiSource => 0x03
    case LocalApicNmi => 0x04
    case LocalApicAddressOverride => 0x05
    case LocalX2Apic => 0x09
    case LocalX2ApicNmi => 0x0a
    case GicCpuInterface => 0x0b
    case GicDistributor => 0x0c
    case GicMsiFrame => 0x0d
    case GicRedistributor => 0x0e
    case GicInterruptTranslationService => 0x0f
    case MultiprocessorWakeup => 0x10
    case RiscvIntc => 0x18
  }

  /** The dispatch and the numbering are inverse: every named shape is reached by exactly its
      own type byte, and every other byte (0x06-0x08, 0x11-0x17, 0x19 and up) is `Unknown`. */
  lemma DispatchMatchesNumbering(tag: byte, t: RecordType)
    ensures t != Unknown ==> RecordTypeOf(TagOf(t)) == t
    ensures RecordTypeOf(tag) != Unknown ==> TagOf(RecordTypeOf(tag)) == tag
    ensures RecordTypeOf(tag) == Unknown <==> !(tag <= 0x05 || 0x09 <= tag <= 0x10 || tag == 0x18)
  {
  }

  // ---------------------------------------------------------------- record layouts

  /** Field widths of each named record, as declared (the 2-byte record header first). */
  function RecordLayout(t: RecordType): seq<nat>
    requires t != Unknown
  {
    match t
    case LocalApic => [2, 1, 1, 4]
    case IoApic => [2, 1, 1, 4, 4]
    case InterruptSourceOverride => [2, 1, 1, 4, 2]
    case NmiSource => [2, 2, 4]
    case LocalApicNmi => [2, 4, 2, 1]
    case LocalApicAddressOverride => [2, 2, 8]
    case LocalX2Apic => [2, 2, 4, 4, 4]
    case LocalX2ApicNmi => [2, 2, 4, 1, 3]
    case GicCpuInterface => [2, 2, 4, 4, 4, 4, 4, 8, 8, 8, 8, 4, 8, 8, 1, 1, 2, 2]
    case GicDistributor => [2, 2, 4, 8, 4, 1, 3]
    case GicMsiFrame => [2, 2, 4, 8, 4, 2, 2]
    case GicRedistributor => [2, 2, 8, 4]
    case GicInterruptTranslationService => [2, 2, 4, 8, 4]
    case MultiprocessorWakeup => [2, 2, 4, 8]
    case RiscvIntc => [2, 1, 1, 4, 8, 4]
  }

  /** `size_of` of each named record. */
  function RecordSize(t: RecordType): nat
    requires t != Unknown
  {
    match t
    case LocalApic => 8
    case IoApic => 12
    case InterruptSourceOverride => 10
    case NmiSource => 8
    case LocalApicNmi => 9
    case LocalApicAddressOverride => 12
    case LocalX2Apic => 16
    case LocalX2ApicNmi => 12
    case GicCpuInterface => 82
    case GicDistributor => 24
    case GicMsiFrame => 24
    case GicRedistributor => 16
    case GicInterruptTranslationService => 20
    case MultiprocessorWakeup => 16
    case RiscvIntc => 20
  }

  /** Sizes of the APIC-family records. */
  lemma ApicRecordSizes(t: RecordType)
    requires t == LocalApic || t == IoApic || t == InterruptSourceOverride || t == NmiSource || t == LocalApicNmi || t == LocalApicAddressOverride || t == LocalX2Apic || t == LocalX2ApicNmi
    ensures RecordSize(t) == Size(RecordLayout(t))
  {
    match t
    case LocalApic =>
      var l := RecordLayout(LocalApic);
      assert Offset(l, 1) == 2;
      assert Offset(l, 2) == 3;
      assert Offset(l, 3) == 4;
      assert Offset(l, 4) == 8;
    case IoApic =>
      var l := RecordLayout(IoApic);
      assert Offset(l, 1) == 2;
      assert Offset(l, 2) == 3;
      assert Offset(l, 3) == 4;
      assert Offset(l, 4) == 8;
      assert Offset(l, 5) == 12;
    case InterruptSourceOverride =>
      var l := RecordLayout(InterruptSourceOverride);
      assert Offset(l, 1) == 2;
      assert Offset(l, 2) == 3;
      assert Offset(l, 3) == 4;
      assert Offset(l, 4) == 8;
      assert Offset(l, 5) == 10;
    case NmiSource =>
      var l := RecordLayout(NmiSource);
      assert Offset(l, 1) == 2;
      assert Offset(l, 2) == 4;
      assert Offset(l, 3) == 8;
    case LocalApicNmi =>
      var l := RecordLayout(LocalApicNmi);
      assert Offset(l, 1) == 2;
      assert Offset(l, 2) == 6;
      assert Offset(l, 3) == 8;
      assert Offset(l, 4) == 9;
    case LocalApicAddressOverride =>
      var l := RecordLayout(LocalApicAddressOverride);
      assert Offset(l, 1) == 2;
      assert Offset(l, 2) == 4;
      assert Offset(l, 3) == 12;
    case LocalX2Apic =>
      var l := RecordLayout(LocalX2Apic);
      assert Offset(l, 1) == 2;
      assert Offset(l, 2) == 4;
      assert Offset(l, 3) == 8;
      assert Offset(l, 4) == 12;
      assert Offset(l, 5) == 16;
    case LocalX2ApicNmi =>
      var l := RecordLayout(LocalX2ApicNmi);
      assert Offset(l, 1) == 2;
      assert Offset(l, 2) == 4;
      assert Offset(l, 3) == 8;
      assert Offset(l, 4) == 9;
      assert Offset(l, 5) == 12;
  }

  /** The first nine fields of the GIC CPU interface record end at byte 40. */
  lemma GicCpuInterfaceFirstHalf()
    ensures Offset(RecordLayout(GicCpuInterface), 9) == 40
  {
    var l := RecordLayout(GicCpuInterface);
    assert Offset(l, 1) == 2;
    assert Offset(l, 2) == 4;
    assert Offset(l, 3) == 8;
    assert Offset(l, 4) == 12;
    assert Offset(l, 5) == 16;
    assert Offset(l, 6) == 20;
    assert Offset(l, 7) == 24;
    assert Offset(l, 8) == 32;
  }

  /** The GIC CPU interface record, the longest, is 82 bytes. */
  lemma GicCpuInterfaceSize()
    ensures RecordSize(GicCpuInterface) == Size(RecordLayout(GicCpuInterface))
  {
    GicCpuInterfaceFirstHalf();
    var l := RecordLayout(GicCpuInterface);
    assert Offset(l, 10) == 48;
    assert Offset(l, 11) == 56;
    assert Offset(l, 12) == 60;
    assert Offset(l, 13) == 68;
    assert Offset(l, 14) == 76;
    assert Offset(l, 15) == 77;
    assert Offset(l, 16) == 78;
    assert Offset(l, 17) == 80;
    assert Offset(l, 18) == 82;
  }


  /** Sizes of the remaining GIC, wakeup and RISC-V records. */
  lemma OtherRecordSizes(t: RecordType)
    requires t == GicDistributor || t == GicMsiFrame || t == GicRedistributor || t == GicInterruptTranslationService || t == MultiprocessorWakeup || t == RiscvIntc
    ensures RecordSize(t) == Size(RecordLayout(t))
  {
    match t
    case GicDistributor =>
      var l := RecordLayout(GicDistributor);
      assert Offset(l, 1) == 2;
      assert Offset(l, 2) == 4;
      assert Offset(l, 3) == 8;
      assert Offset(l, 4) == 16;
      assert Offset(l, 5) == 20;
      assert Offset(l, 6) == 21;
      assert Offset(l, 7) == 24;
    case GicMsiFrame =>
      var l := RecordLayout(GicMsiFrame);
      assert Offset(l, 1) == 2;
      assert Offset(l, 2) == 4;
      assert Offset(l, 3) == 8;
      assert Offset(l, 4) == 16;
      assert Offset(l, 5) == 20;
      assert Offset(l, 6) == 22;
      assert Offset(l, 7) == 24;
    case GicRedistributor =>
      var l := RecordLayout(GicRedistributor);
      assert Offset(l, 1) == 2;
      assert Offset(l, 2) == 4;
      assert Offset(l, 3) == 12;
      assert Offset(l, 4) == 16;
    case GicInterruptTranslationService =>
      var l := RecordLayout(GicInterruptTranslationService);
      assert Offset(l, 1) == 2;
      assert Offset(l, 2) == 4;
      assert Offset(l, 3) == 8;
      assert Offset(l, 4) == 16;
      assert Offset(l, 5) == 20;
    case MultiprocessorWakeup =>
      var l := RecordLayout(MultiprocessorWakeup);
      assert Offset(l, 1) == 2;
      assert Offset(l, 2) == 4;
      assert Offset(l, 3) == 8;
      assert Offset(l, 4) == 16;
    case RiscvIntc =>
      var l := RecordLayout(RiscvIntc);
      assert Offset(l, 1) == 2;
      assert Offset(l, 2) == 3;
      assert Offset(l, 3) == 4;
      assert Offset(l, 4) == 8;
      assert Offset(l, 5) == 16;
      assert Offset(l, 6) == 20;
  }

  /** The sizes are the packed sizes of the layouts. */
  lemma RecordSizes(t: RecordType)
    requires t != Unknown
    ensures RecordSize(t) == Size(RecordLayout(t))
  {
    if t == GicCpuInterface {
      GicCpuInterfaceSize();
    } else if t == LocalApic || t == IoApic || t == InterruptSourceOverride || t == NmiSource || t == LocalApicNmi || t == LocalApicAddressOverride || t == LocalX2Apic || t == LocalX2ApicNmi {
      ApicRecordSizes(t);
    } else {
      OtherRecordSizes(t);
    }
  }

  // ---------------------------------------------------------------- records

  /** An `Entry`: the record's shape and its `total_size` bytes (header included). */
  datatype Record = Record(rtype: RecordType, bytes: seq<byte>)

  /** The record is at least as long as the shape it is cast to, so its fields can be read. */
  predicate Complete(r: Record)
  {
    r.rtype != Unknown && RecordSize(r.rtype) <= |r.bytes|
  }

  /** Field `k` of a named record, read at its packed offset. */
  function RecordField(r: Record, k: nat): nat
    requires Complete(r) && k < |RecordLayout(r.rtype)|
  {
    RecordSizes(r.rtype);
    Field(RecordLayout(r.rtype), r.bytes, k)
  }

  /** `Unknown::data`: the record after its 2-byte header (`total_size - 2` bytes). */
  function UnknownData(r: Record): (d: seq<byte>)
    requires r.rtype == Unknown && |r.bytes| >= 2
    ensures |d| == |r.bytes| - 2 && r.bytes == r.bytes[..2] + d
  {
    r.bytes[2..]
  }

  /** `LocalApic::{acpi_processor_uid, apic_id, flags}` (processor UID at byte 2, APIC ID at
      byte 3, flags the u32 at byte 4). */
  function LocalApicFields(r: Record): (f: (nat, nat, nat))
    requires r.rtype == LocalApic && Complete(r)
    ensures f == (r.bytes[2] as nat, r.bytes[3] as nat, LeAt(r.bytes, 4, 4))
  {
    var l := RecordLayout(LocalApic);
    assert Offset(l, 3) == 4;
    FieldIsSlice(l, r.bytes, 1);
    FieldIsSlice(l, r.bytes, 2);
    assert r.bytes[2..3] == [r.bytes[2]] && r.bytes[3..4] == [r.bytes[3]];
    (RecordField(r, 1), RecordField(r, 2), RecordField(r, 3))
  }

  /** `IoApic::{io_apic_id, io_apic_addr, gsi_base}` (byte 2, u32 at byte 4, u32 at byte 8). */
  function IoApicFields(r: Record): (f: (nat, nat, nat))
    requires r.rtype == IoApic && Complete(r)
    ensures f == (r.bytes[2] as nat, LeAt(r.bytes, 4, 4), LeAt(r.bytes, 8, 4))
  {
    var l := RecordLayout(IoApic);
    assert Offset(l, 4) == 8;
    FieldIsSlice(l, r.bytes, 1);
    assert r.bytes[2..3] == [r.bytes[2]];
    (RecordField(r, 1), RecordField(r, 3), RecordField(r, 4))
  }

  /** `InterruptSourceOverride::{source, global_system_interrupt, flags}` (bus and source at
      bytes 2 and 3, u32 at byte 4, u16 at byte 8). */
  function InterruptSourceOverrideFields(r: Record): (f: (nat, nat, nat, nat))
    requires r.rtype == InterruptSourceOverride && Complete(r)
    ensures f == (r.bytes[2] as nat, r.bytes[3] as nat, LeAt(r.bytes, 4, 4), LeAt(r.bytes, 8, 2))
  {
    var l := RecordLayout(InterruptSourceOverride);
    assert Offset(l, 4) == 8;
    FieldIsSlice(l, r.bytes, 1);
    FieldIsSlice(l, r.bytes, 2);
    assert r.bytes[2..3] == [r.bytes[2]] && r.bytes[3..4] == [r.bytes[3]];
    (RecordField(r, 1), RecordField(r, 2), RecordField(r, 3), RecordField(r, 4))
  }

  /** `NmiSource::{flags, global_system_interrupt}` (u16 at byte 2, u32 at byte 4). */
  function NmiSourceFields(r: Record): (f: (nat, nat))
    requires r.rtype == NmiSource && Complete(r)
    ensures f == (LeAt(r.bytes, 2, 2), LeAt(r.bytes, 4, 4))
  {
    assert Offset(RecordLayout(NmiSource), 2) == 4;
    (RecordField(r, 1), RecordField(r, 2))
  }

  /** `LocalApicNmi::{acpi_processor_uid, flags, local_apic_lintn}` as declared: a u32 UID at
      byte 2, the u16 flags at byte 6 and the LINT number at byte 8, nine bytes in all. */
  function LocalApicNmiFieldsAsWritten(r: Record): (f: (nat, nat, nat))
    requires r.rtype == LocalApicNmi && Complete(r)
    ensures RecordSize(LocalApicNmi) == 9
    ensures f == (LeAt(r.bytes, 2, 4), LeAt(r.bytes, 6, 2), r.bytes[8] as nat)
  {
    var l := RecordLayout(LocalApicNmi);
    assert Offset(l, 1) == 2 && Offset(l, 2) == 6 && Offset(l, 3) == 8;
    FieldIsSlice(l, r.bytes, 3);
    assert r.bytes[8..9] == [r.bytes[8]];
    (RecordField(r, 1), RecordField(r, 2), RecordField(r, 3))
  }

  /** With the declared layout a Local APIC NMI record of the standard 6 bytes is too short
      for the structure it is cast to: its `acpi_processor_uid` takes in the flags and the
      LINT number, and `flags` and `local_apic_lintn` are read from the three bytes after
      the record. */
  lemma LocalApicNmiAsWrittenOverreads(uid: byte, flags0: byte, flags1: byte, lint: byte,
                                       after: seq<byte>)
    requires |after| >= 3
    ensures var rec := [4 as byte, 6, uid, flags0, flags1, lint];
            var f := LocalApicNmiFieldsAsWritten(Record(LocalApicNmi, rec + after));
            |rec| < RecordSize(LocalApicNmi) &&
            f.0 == uid as nat + 256 * flags0 as nat + 65536 * flags1 as nat + 16777216 * lint as nat &&
            f.1 == LeAt(after, 0, 2) && f.2 == after[2] as nat
  {
    var rec := [4 as byte, 6, uid, flags0, flags1, lint];
    var b := rec + after;
    assert b[2..6] == [uid, flags0, flags1, lint];
    assert b[6..8] == after[0..2];
    assert b[8] == after[2];
    assert LeDecode([lint]) == lint as nat by {
      assert [lint][1..] == [];
    }
    assert LeDecode([flags1, lint]) == flags1 as nat + 256 * lint as nat by {
      assert [flags1, lint][1..] == [lint];
    }
    assert LeDecode([flags0, flags1, lint]) == flags0 as nat + 256 * LeDecode([flags1, lint]) by {
      assert [flags0, flags1, lint][1..] == [flags1, lint];
    }
    assert [uid, flags0, flags1, lint][1..] == [flags0, flags1, lint];
  }

  /** The Local APIC NMI structure of section 5.2.12.7 of ACPI 6.5: header, a 1-byte processor
      UID, the u16 flags and the LINT number, six bytes. */
  const LocalApicNmiStandard: seq<nat> := [2, 1, 2, 1]

  /** The corrected `LocalApicNmi::{acpi_processor_uid, flags, local_apic_lintn}`: the UID at
      byte 2, the u16 flags at byte 3 and the LINT number at byte 5, read from a record of at
      least the standard six bytes. */
  function LocalApicNmiFields(r: Record): (f: (nat, nat, nat))
    requires r.rtype == LocalApicNmi && 6 <= |r.bytes|
    ensures Size(LocalApicNmiStandard) == 6
    ensures f == (r.bytes[2] as nat, LeAt(r.bytes, 3, 2), r.bytes[5] as nat)
  {
    var l := LocalApicNmiStandard;
    assert Offset(l, 1) == 2 && Offset(l, 2) == 3 && Offset(l, 3) == 5 && Offset(l, 4) == 6;
    FieldIsSlice(l, r.bytes, 1);
    FieldIsSlice(l, r.bytes, 3);
    assert r.bytes[2..3] == [r.bytes[2]] && r.bytes[5..6] == [r.bytes[5]];
    (Field(l, r.bytes, 1), Field(l, r.bytes, 2), Field(l, r.bytes, 3))
  }

  /** On a record long enough for both layouts, the declared UID's low byte is the standard
      UID: the two layouts agree on byte 2 and differ from byte 3 on. */
  lemma LocalApicNmiLayoutsShareUidByte(r: Record)
    requires r.rtype == LocalApicNmi && Complete(r)
    ensures LocalApicNmiFieldsAsWritten(r).0 % 256 == LocalApicNmiFields(r).0
  {
    var f := LocalApicNmiFieldsAsWritten(r);
    assert r.bytes[2..6][0] == r.bytes[2];
  }

  /** `LocalX2Apic::acpi_processor_uid` (u32 at byte 12). */
  function LocalX2ApicUid(r: Record): (uid: nat)
    requires r.rtype == LocalX2Apic && Complete(r)
    ensures uid == LeAt(r.bytes, 12, 4)
  {
    assert Offset(RecordLayout(LocalX2Apic), 4) == 12;
    RecordField(r, 4)
  }

  /** `LocalX2ApicNmi::{flags, acpi_processor_uid}` (u16 at byte 2, u32 at byte 4). */
  function LocalX2ApicNmiFields(r: Record): (f: (nat, nat))
    requires r.rtype == LocalX2ApicNmi && Complete(r)
    ensures f == (LeAt(r.bytes, 2, 2), LeAt(r.bytes, 4, 4))
  {
    assert Offset(RecordLayout(LocalX2ApicNmi), 2) == 4;
    (RecordField(r, 1), RecordField(r, 2))
  }

  /** `GicCpuInterface::acpi_processor_uid` (u32 at byte 8). */
  function GicCpuInterfaceUid(r: Record): (uid: nat)
    requires r.rtype == GicCpuInterface && Complete(r)
    ensures uid == LeAt(r.bytes, 8, 4)
  {
    assert Offset(RecordLayout(GicCpuInterface), 3) == 8;
    RecordField(r, 3)
  }

  /** `RiscvIntc::{flags, hartid, acpi_processor_uid}` (u32 at byte 4, u64 at byte 8, u32 at
      byte 16). The flags keep all 32 bits (`from_bits_retain`). */
  function RiscvIntcFields(r: Record): (f: (nat, nat, nat))
    requires r.rtype == RiscvIntc && Complete(r)
    ensures f == (LeAt(r.bytes, 4, 4), LeAt(r.bytes, 8, 8), LeAt(r.bytes, 16, 4))
  {
    var l := RecordLayout(RiscvIntc);
    assert Offset(l, 3) == 4 && Offset(l, 4) == 8 && Offset(l, 5) == 16;
    (RecordField(r, 3), RecordField(r, 4), RecordField(r, 5))
  }

  /** `RiscvIntcFlags::{ENABLED, ONLINE_CAPABLE}`: bits 0 and 1. */
  const ENABLED_BIT: nat := 0
  const ONLINE_CAPABLE_BIT: nat := 1

  /** `RiscvIntc::is_startable`: the flags intersect `ENABLED | ONLINE_CAPABLE`. */
  predicate IsStartable(flags: nat)
  {
    HasBit(flags, ENABLED_BIT) || HasBit(flags, ONLINE_CAPABLE_BIT)
  }

  /** A hart is startable exactly when one of the two low bits of its flags word is set: no
      other bit matters. */
  lemma IsStartableLowBits(flags: nat)
    ensures IsStartable(flags) <==> flags % 4 != 0
    ensures IsStartable(flags) <==> IsStartable(flags % 4)
  {
    assert Pow2(1) == 2;
  }

  // ---------------------------------------------------------------- the record walker

  /** One call of the `entries` closure at `offset` in the region `ics`: the step it takes
      and the offset it leaves behind.
      - fewer than 2 bytes left for the record header: `None`, offset unchanged;
      - `total_size` runs past the region: `None`, offset unchanged;
      - `total_size` is 0: the slice is empty and `bytes[0]` panics;
      - an unknown type with `total_size` 1: `bytes.len() - 2` underflows and panics;
      - otherwise the record, and the offset moves past it. */
  function StepAt(ics: seq<byte>, offset: nat): (Step<Record>, nat)
  {
    if offset + 2 > |ics| then (Done, offset)
    else
      var total := ics[offset + 1] as nat;
      if offset + total > |ics| then (Done, offset)
      else if total == 0 then (Panic, offset)
      else
        var bytes := ics[offset..offset + total];
        var t := RecordTypeOf(bytes[0]);
        if t == Unknown && total < 2 then (Panic, offset + total)
        else (Yield(Record(t, bytes)), offset + total)
  }

  /** What one step promises: a yielded record lies wholly inside the region, starts at the
      old offset, is typed by its first byte, and the offset moves by exactly its size; when
      the walk ends the offset stays, so every later call ends too. */
  lemma StepFacts(ics: seq<byte>, offset: nat)
    requires offset <= |ics|
    ensures var (s, next) := StepAt(ics, offset);
            next <= |ics| &&
            (s.Yield? ==> offset < next && s.item.bytes == ics[offset..next] &&
                          ics[offset + 1] as nat == |s.item.bytes| &&
                          s.item.rtype == RecordTypeOf(s.item.bytes[0]) &&
                          (s.item.rtype == Unknown ==> |s.item.bytes| >= 2)) &&
            (s.Done? ==> next == offset && StepAt(ics, next).0.Done?) &&
            (s.Done? <==> offset + 2 > |ics| || offset + ics[offset + 1] as nat > |ics|)
  {
  }

  /** The iterator `Madt::entries` returns: the region and the captured `offset`. */
  class MadtEntries {
    const ics: seq<byte>
    var offset: nat

    /** `entries`: the walk starts at the beginning of the record region. */
    constructor (table: seq<byte>)
      requires |table| >= MADT_PREFIX
      ensures ics == Region(table) && offset == 0
    {
      ics := table[MADT_PREFIX..];
      offset := 0;
    }

    /** `next`: one call of the closure. */
    method Next() returns (r: Step<Record>)
      modifies this
      ensures (r, offset) == StepAt(ics, old(offset))
    {
      if offset + 2 > |ics| {
        return Done;
      }
      var total := ics[offset + 1] as nat;
      if offset + total > |ics| {
        return Done;
      }
      var bytes := ics[offset..offset + total];
      offset := offset + total;
      if |bytes| == 0 {
        return Panic;
      }
      var t := RecordTypeOf(bytes[0]);
      if t == Unknown && |bytes| < 2 {
        return Panic;
      }
      r := Yield(Record(t, bytes));
    }
  }

  /** The whole walk from `offset`: the records yielded in order, where the walk stopped, and
      whether it stopped by panicking. */
  datatype Walked = Walked(records: seq<Record>, end: nat, panicked: bool)

  function Walk(ics: seq<byte>, offset: nat): (w: Walked)
    requires offset <= |ics|
    ensures offset <= w.end <= |ics|
    decreases |ics| - offset
  {
    StepFacts(ics, offset);
    var (s, next) := StepAt(ics, offset);
    match s
    case Done => Walked([], offset, false)
    case Panic => Walked([], offset, true)
    case Yield(rec) =>
      var rest := Walk(ics, next);
      Walked([rec] + rest.records, rest.end, rest.panicked)
  }

  /** All record bytes, in order. */
  function Concat(records: seq<Record>): seq<byte>
  {
    if records == [] then [] else records[0].bytes + Concat(records[1..])
  }

  /** The records come out in storage order with no gap and no overlap: together they are
      exactly the region bytes walked over. A walk that did not panic stopped where no further
      record fits. */
  lemma {:induction false} WalkTiles(ics: seq<byte>, offset: nat)
    requires offset <= |ics|
    ensures var w := Walk(ics, offset);
            Concat(w.records) == ics[offset..w.end] &&
            (!w.panicked ==> StepAt(ics, w.end).0.Done?)
    decreases |ics| - offset
  {
    StepFacts(ics, offset);
    var (s, next) := StepAt(ics, offset);
    if s.Yield? {
      WalkTiles(ics, next);
      var w := Walk(ics, next);
      assert Walk(ics, offset).records == [s.item] + w.records;
      assert ([s.item] + w.records)[1..] == w.records;
      assert ics[offset..w.end] == ics[offset..next] + ics[next..w.end];
    }
  }

  /** Every record of a walk lies inside the region and is typed by its first byte. */
  lemma {:induction false} WalkRecords(ics: seq<byte>, offset: nat, i: nat)
    requires offset <= |ics| && i < |Walk(ics, offset).records|
    ensures var r := Walk(ics, offset).records[i];
            2 <= |r.bytes| || r.rtype != Unknown
    ensures var r := Walk(ics, offset).records[i];
            0 < |r.bytes| && r.rtype == RecordTypeOf(r.bytes[0])
    decreases |ics| - offset
  {
    StepFacts(ics, offset);
    var (s, next) := StepAt(ics, offset);
    if i > 0 {
      WalkRecords(ics, next, i - 1);
    }
  }
}
