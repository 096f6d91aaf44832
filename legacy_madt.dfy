/** `src/madt.rs`: the older MADT walker. A raw cursor starts right after the 44-byte `Madt`
    prefix and steps from record to record by each record's length byte until it reaches the
    end the header's length gives. It decodes the local APIC and RISC-V INTC records and passes
    every other record on as an untyped span. Memory is seen from the table's first byte:
    `mem(i)` is the byte `i` bytes after the table start, inside the table or past its end. */
module LegacyMadt {
  import opened Bytes
  import opened Layout
  import opened Wrappers
  import opened Sdt
  import MadtRecords

  /** `size_of::<Madt>()`: header, `local_intc_addr` and `flags`. */
  const LEGACY_PREFIX: nat := 44

  const TAG_LOCAL_APIC: byte := 0x00
  const TAG_RISCV_INTC: byte := 0x18

  lemma LegacyPrefixSize()
    ensures Size([HEADER_SIZE, 4, 4]) == LEGACY_PREFIX
    ensures LEGACY_PREFIX == PrefixSize(Madt)
  {
    assert Offset([HEADER_SIZE, 4, 4], 1) == 36;
    assert Offset([HEADER_SIZE, 4, 4], 2) == 40;
  }

  /** `read_unaligned` of the `n`-byte little-endian integer at `p`. */
  function MemLe(mem: nat -> byte, p: nat, n: nat): (r: nat)
    ensures r < Pow256(n)
  {
    LeDecode(PhysRead(mem, p, n))
  }

  /** `(*madt).header.length`: where the walk ends. */
  function TableEnd(mem: nat -> byte): nat
  {
    MemLe(mem, 4, 4)
  }

  /** `Entry`, restricted to what the walker builds: the two decoded shapes and `Unknown` with
      its tag and its span (`len` bytes from the record's first byte, header included). */
  datatype LegacyEntry =
    | LocalApic(processorUid: nat, lapicId: nat, flags: nat)
    | RiscvIntc(processorUid: nat, hartid: nat, flags: nat)
    | Unknown(kind: byte, start: nat, len: nat)

  /** One call of the `from_fn` closure with the cursor at `ptr`: the item and the new cursor.
      The version check of a RISC-V INTC record panics before the cursor moves. */
  function LegacyStepAt(mem: nat -> byte, end: nat, ptr: nat): (Step<LegacyEntry>, nat)
  {
    if ptr >= end then (Done, ptr)
    else
      var kind := mem(ptr);
      var next := ptr + mem(ptr + 1) as nat;
      if kind == TAG_LOCAL_APIC then
        (Yield(LocalApic(mem(ptr + 2) as nat, mem(ptr + 3) as nat, MemLe(mem, ptr + 4, 4))), next)
      else if kind == TAG_RISCV_INTC then
        if mem(ptr + 2) != 1 then (Panic, ptr)
        else (Yield(RiscvIntc(MemLe(mem, ptr + 16, 4), MemLe(mem, ptr + 8, 8), MemLe(mem, ptr + 4, 4))), next)
      else (Yield(Unknown(kind, ptr, mem(ptr + 1) as nat)), next)
  }

  /** The iterator `iter_madt` returns: the memory it reads, its end and its cursor. */
  class LegacyCursor {
    const mem: nat -> byte
    const end: nat
    var ptr: nat

    /** `iter_madt(madt)`: the cursor starts after the prefix, the end is the header's length. */
    constructor(mem: nat -> byte)
      ensures this.mem == mem && end == TableEnd(mem) && ptr == LEGACY_PREFIX
    {
      this.mem := mem;
      end := TableEnd(mem);
      ptr := LEGACY_PREFIX;
    }

    /** `next`: decode the record under the cursor and step over it by its length byte. */
    method Next() returns (r: Step<LegacyEntry>)
      modifies this`ptr
      ensures (r, ptr) == LegacyStepAt(mem, end, old(ptr))
    {
      if ptr >= end {
        return Done;
      }
      var kind := mem(ptr);
      var len := mem(ptr + 1);
      if kind == TAG_LOCAL_APIC {
        var processorUid := mem(ptr + 2) as nat;
        var lapicId := mem(ptr + 3) as nat;
        var flags := LeDecode(PhysRead(mem, ptr + 4, 4));
        r := Yield(LocalApic(processorUid, lapicId, flags));
      } else if kind == TAG_RISCV_INTC {
        var version := mem(ptr + 2);
        if version != 1 {
          return Panic;
        }
        var flags := LeDecode(PhysRead(mem, ptr + 4, 4));
        var hartid := LeDecode(PhysRead(mem, ptr + 8, 8));
        var processorUid := LeDecode(PhysRead(mem, ptr + 16, 4));
        r := Yield(RiscvIntc(processorUid, hartid, flags));
      } else {
        r := Yield(Unknown(kind, ptr, len as nat));
      }
      ptr := ptr + len as nat;
    }
  }

  /** The walk stops exactly when the cursor has reached the end; a record is never checked to
      fit before the end, and a table whose length is below the prefix yields nothing. */
  lemma LegacyStopsIffPastEnd(mem: nat -> byte, end: nat, ptr: nat)
    ensures LegacyStepAt(mem, end, ptr).0.Done? <==> ptr >= end
    ensures LegacyStepAt(mem, end, ptr).0.Done? ==> LegacyStepAt(mem, end, ptr).1 == ptr
    ensures TableEnd(mem) <= LEGACY_PREFIX ==> LegacyStepAt(mem, TableEnd(mem), LEGACY_PREFIX).0.Done?
  {
  }

  /** Every record yielded moves the cursor by the record's length byte, and a panic happens
      only on a RISC-V INTC record whose version byte is not 1. */
  lemma LegacyAdvance(mem: nat -> byte, end: nat, ptr: nat)
    requires ptr < end
    ensures LegacyStepAt(mem, end, ptr).0.Yield? ==>
              LegacyStepAt(mem, end, ptr).1 == ptr + mem(ptr + 1) as nat
    ensures LegacyStepAt(mem, end, ptr).0.Panic? <==> mem(ptr) == TAG_RISCV_INTC && mem(ptr + 2) != 1
  {
  }

  /** Any other tag is passed on as `Unknown`, and its span is exactly the bytes the cursor
      steps over: from the record's first byte, header included, for `len` bytes. */
  lemma LegacyUnknownSpan(mem: nat -> byte, end: nat, ptr: nat)
    requires ptr < end && mem(ptr) != TAG_LOCAL_APIC && mem(ptr) != TAG_RISCV_INTC
    ensures var (s, next) := LegacyStepAt(mem, end, ptr);
            s.Yield? && s.item.Unknown? && s.item.kind == mem(ptr) &&
            s.item.start == ptr && s.item.start + s.item.len == next
  {
  }

  /** The first `n` items the iterator yields from cursor `ptr` (fewer if it stops or panics
      first). */
  function LegacyTake(mem: nat -> byte, end: nat, ptr: nat, n: nat): (es: seq<LegacyEntry>)
    ensures |es| <= n
    decreases n
  {
    if n == 0 then []
    else
      var (s, next) := LegacyStepAt(mem, end, ptr);
      if s.Yield? then [s.item] + LegacyTake(mem, end, next, n - 1) else []
  }

  /** A record whose length byte is 0 is yielded again and again: the walk never ends. */
  lemma {:induction false} ZeroLengthRepeats(mem: nat -> byte, end: nat, ptr: nat, n: nat)
    requires ptr < end && mem(ptr + 1) == 0 && LegacyStepAt(mem, end, ptr).0.Yield?
    ensures LegacyTake(mem, end, ptr, n) == seq(n, _ => LegacyStepAt(mem, end, ptr).0.item)
  {
    if n > 0 {
      ZeroLengthRepeats(mem, end, ptr, n - 1);
    }
  }

  /** The first byte of a little-endian number is its low byte. */
  lemma LowByte(s: seq<byte>)
    requires s != []
    ensures LeDecode(s) % 256 == s[0] as nat
  {
  }

  /** Nothing keeps a record inside the table: a RISC-V INTC record whose tag is the table's
      last byte takes its hart ID from the eight bytes after the table, so two memories that
      agree on the whole table but differ past it give different hart IDs. */
  lemma LegacyReadsPastEnd(m1: nat -> byte, m2: nat -> byte, end: nat)
    requires end >= 1
    requires forall i :: 0 <= i < end + 7 ==> m1(i) == m2(i)
    requires m1(end - 1) == TAG_RISCV_INTC && m1(end + 1) == 1
    requires m1(end + 7) != m2(end + 7)
    ensures LegacyStepAt(m1, end, end - 1).0.Yield? && LegacyStepAt(m2, end, end - 1).0.Yield?
    ensures LegacyStepAt(m1, end, end - 1).0.item.hartid != LegacyStepAt(m2, end, end - 1).0.item.hartid
  {
    var p := end - 1;
    assert m2(p) == m1(p) && m2(p + 2) == m1(p + 2);
    LowByte(PhysRead(m1, p + 8, 8));
    LowByte(PhysRead(m2, p + 8, 8));
  }

  /** The record bytes under the cursor, as the newer walker sees them. */
  function RecordUnder(mem: nat -> byte, ptr: nat, t: MadtRecords.RecordType): (r: MadtRecords.Record)
    requires t != MadtRecords.Unknown
    ensures MadtRecords.Complete(r) && r.rtype == t
  {
    MadtRecords.Record(t, PhysRead(mem, ptr, MadtRecords.RecordSize(t)))
  }

  /** The two walkers decode the records they both know alike: a legacy local APIC or RISC-V
      INTC item holds the fields the packed record layout gives those bytes. */
  lemma LegacyAgreesWithRecords(mem: nat -> byte, end: nat, ptr: nat)
    requires ptr < end
    ensures mem(ptr) == TAG_LOCAL_APIC ==>
              var f := MadtRecords.LocalApicFields(RecordUnder(mem, ptr, MadtRecords.LocalApic));
              LegacyStepAt(mem, end, ptr).0 == Yield(LocalApic(f.0, f.1, f.2))
    ensures mem(ptr) == TAG_RISCV_INTC && mem(ptr + 2) == 1 ==>
              var f := MadtRecords.RiscvIntcFields(RecordUnder(mem, ptr, MadtRecords.RiscvIntc));
              LegacyStepAt(mem, end, ptr).0 == Yield(RiscvIntc(f.2, f.1, f.0))
  {
    var a := PhysRead(mem, ptr, 8);
    PhysReadSlice(mem, ptr, 8, 4, 8);
    var b := PhysRead(mem, ptr, 20);
    PhysReadSlice(mem, ptr, 20, 4, 8);
    PhysReadSlice(mem, ptr, 20, 8, 16);
    PhysReadSlice(mem, ptr, 20, 16, 20);
  }
}
