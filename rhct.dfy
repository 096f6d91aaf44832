/** `src/sdt/rhct.rs`: the RISC-V Hart Capabilities Table. After its 56-byte prefix the table
    holds a region of nodes, each starting with a 6-byte header (type, length, revision).
    The prefix gives the number of nodes and the table-relative offset of the first one;
    HART_INFO nodes list table-relative offsets of the nodes that describe one hart. */
module RhctNodes {
  import opened Bytes
  import opened Layout
  import opened Wrappers
  import opened Sdt

  const RHCT_PREFIX: nat := 56
  const NODE_HEADER_SIZE: nat := 6
  const HART_INFO_PREFIX: nat := 12

  /** Field widths of the fixed part of a HART_INFO node: header, `offsets_len`,
      `acpi_processor_uid`. */
  const HartInfoLayout: seq<nat> := [NODE_HEADER_SIZE, 2, 4]

  /** Field widths of a CMO node: header, `rsvd0`, `cbom_block_size`, `cbop_block_size`,
      `cboz_block_size`. */
  const CmoInfoLayout: seq<nat> := [NODE_HEADER_SIZE, 1, 1, 1, 1]

  lemma NodeLayoutFacts()
    ensures Offset(HartInfoLayout, 2) == 8 && Size(HartInfoLayout) == HART_INFO_PREFIX
    ensures Offset(CmoInfoLayout, 2) == 7 && Offset(CmoInfoLayout, 3) == 8
    ensures Offset(CmoInfoLayout, 4) == 9 && Size(CmoInfoLayout) == 10
  {
    assert Offset(HartInfoLayout, 1) == 6;
    assert Offset(HartInfoLayout, 2) == 8;
    assert Offset(HartInfoLayout, 3) == 12;
    assert Offset(CmoInfoLayout, 1) == 6;
    assert Offset(CmoInfoLayout, 2) == 7;
    assert Offset(CmoInfoLayout, 3) == 8;
    assert Offset(CmoInfoLayout, 4) == 9;
    assert Offset(CmoInfoLayout, 5) == 10;
  }

  /** The node types `NodeType` names. */
  const ISA_STRING: nat := 0
  const CMO_INFO: nat := 1
  const MMU_INFO: nat := 2
  const HART_INFO: nat := 65535

  // ---------------------------------------------------------------- the table prefix

  /** The prefix fields after the header: `flags()` (all 32 bits kept),
      `time_base_frequency()`, `nodes_len` (`Rhct::len`) and `nodes_offset`. */
  datatype Prefix = Prefix(flags: nat, timeBaseFrequency: nat, nodesLen: nat, nodesOffset: nat)

  function RhctPrefix(table: seq<byte>): (p: Prefix)
    requires |table| >= RHCT_PREFIX
    ensures p == Prefix(LeAt(table, 36, 4), LeAt(table, 40, 8), LeAt(table, 48, 4), LeAt(table, 52, 4))
  {
    var l := PrefixLayout(Rhct);
    PrefixSizes(Rhct);
    assert Offset(l, 1) == 36 && Offset(l, 2) == 40 && Offset(l, 3) == 48 && Offset(l, 4) == 52;
    Prefix(Field(l, table, 1), Field(l, table, 2), Field(l, table, 3), Field(l, table, 4))
  }

  /** The node region `nodes`: every byte after the prefix, up to the table's `length`. */
  function Nodes(table: seq<byte>): (r: seq<byte>)
    requires |table| >= RHCT_PREFIX
    ensures |r| == |table| - RHCT_PREFIX == ViewFor(Rhct, |table|).count
    ensures forall i :: 0 <= i < |r| ==> r[i] == table[RHCT_PREFIX + i]
  {
    table[RHCT_PREFIX..]
  }

  /** `Header::node_type` and `Header::len` of the node whose header starts at `at`. */
  function NodeType(nodes: seq<byte>, at: nat): (t: nat)
    requires at + NODE_HEADER_SIZE <= |nodes|
    ensures t < 65536
  {
    LeAt(nodes, at, 2)
  }

  function NodeLen(nodes: seq<byte>, at: nat): (n: nat)
    requires at + NODE_HEADER_SIZE <= |nodes|
    ensures n < 65536
  {
    LeAt(nodes, at + 2, 2)
  }

  // ---------------------------------------------------------------- get_node

  /** The outcomes of `get_node`: a node at region offset `at` of `len` bytes, `None`, the
      subtraction of the prefix size underflowing, or the node header read past the region. */
  datatype Lookup = Found(at: nat, len: nat) | Missing | Underflow | Overread

  /** `get_node` as written: the table-relative offset is rebased by subtracting 56; the
      region must reach the rebased offset (`nodes.get(offset..)`), then the node header is
      read there, and the node's `len` bytes must lie in the region. Nothing checks that the
      6 header bytes lie in the region before they are read. */
  function GetNodeAsWritten(table: seq<byte>, offset: nat): Lookup
    requires |table| >= RHCT_PREFIX
  {
    if offset < RHCT_PREFIX then Underflow
    else
      var nodes := Nodes(table);
      var at := offset - RHCT_PREFIX;
      if at > |nodes| then Missing
      else if at + NODE_HEADER_SIZE > |nodes| then Overread
      else if at + NodeLen(nodes, at) > |nodes| then Missing
      else Found(at, NodeLen(nodes, at))
  }

  /** An offset at the very end of the region passes the `get(offset..)` check, and the node
      header is then read from the 6 bytes after the table. */
  lemma GetNodeAsWrittenOverreads(table: seq<byte>)
    requires |table| >= RHCT_PREFIX
    ensures GetNodeAsWritten(table, |table|) == Overread
    ensures GetNode(table, |table|) == Missing
  {
  }

  /** `get_node` with the header bounds check the `get(offset..)` evidently stands for: a
      node is found exactly when its header and its `len` bytes lie in the region; offsets
      below the prefix size still underflow. */
  function GetNode(table: seq<byte>, offset: nat): (r: Lookup)
    requires |table| >= RHCT_PREFIX
    ensures r != Overread
    ensures r.Underflow? <==> offset < RHCT_PREFIX
    ensures r.Found? ==>
              var nodes := Nodes(table);
              r.at == offset - RHCT_PREFIX && r.at + NODE_HEADER_SIZE <= |nodes| &&
              r.len == NodeLen(nodes, r.at) && r.at + r.len <= |nodes|
    ensures var nodes := Nodes(table);
            (offset >= RHCT_PREFIX && offset - RHCT_PREFIX + NODE_HEADER_SIZE <= |nodes| &&
             offset - RHCT_PREFIX + NodeLen(nodes, offset - RHCT_PREFIX) <= |nodes|) ==> r.Found?
  {
    if offset < RHCT_PREFIX then Underflow
    else
      var nodes := Nodes(table);
      var at := offset - RHCT_PREFIX;
      if at + NODE_HEADER_SIZE > |nodes| then Missing
      else if at + NodeLen(nodes, at) > |nodes| then Missing
      else Found(at, NodeLen(nodes, at))
  }

  /** The correction changes nothing but the overreading case. */
  lemma GetNodeAgrees(table: seq<byte>, offset: nat)
    requires |table| >= RHCT_PREFIX
    ensures GetNodeAsWritten(table, offset) != Overread ==>
              GetNode(table, offset) == GetNodeAsWritten(table, offset)
    ensures GetNodeAsWritten(table, offset) == Overread <==>
              offset >= RHCT_PREFIX && |Nodes(table)| < offset - RHCT_PREFIX + NODE_HEADER_SIZE &&
              offset - RHCT_PREFIX <= |Nodes(table)|
  {
  }

  // ---------------------------------------------------------------- nodes()

  /** A HART_INFO node: its region offset and `len`. */
  datatype HartInfo = HartInfo(at: nat, len: nat)

  /** A HART_INFO node as `nodes()` yields it: inside the region, of type HART_INFO, and long
      enough for the `HartInfo` prefix. */
  predicate HartInfoIn(nodes: seq<byte>, h: HartInfo)
  {
    h.at + NODE_HEADER_SIZE <= |nodes| && h.at + h.len <= |nodes| &&
    NodeType(nodes, h.at) == HART_INFO && h.len == NodeLen(nodes, h.at) && HART_INFO_PREFIX <= h.len
  }

  /** What one step of the counted walk does at `offset`. */
  datatype NodeStep = Skip(next: nat) | Hart(hart: HartInfo, next: nat) | Crash

  /** One step of the `filter_map` closure: a node `get_node` does not find is skipped and
      the offset stays; a found node moves the offset by its `len`, and is yielded when it is
      a HART_INFO node (sizing it as `HartInfo`, `len - 12`, underflows below 12 bytes). */
  function NodeStepAt(table: seq<byte>, offset: nat): NodeStep
    requires |table| >= RHCT_PREFIX
  {
    var lookup := GetNode(table, offset);
    if lookup.Underflow? then Crash
    else if !lookup.Found? then Skip(offset)
    else
      var next := offset + lookup.len;
      if NodeType(Nodes(table), lookup.at) != HART_INFO then Skip(next)
      else if lookup.len < HART_INFO_PREFIX then Crash
      else Hart(HartInfo(lookup.at, lookup.len), next)
  }

  /** The HART_INFO nodes a walk of `steps` steps from `offset` yields, and whether it
      panics before it ends. */
  datatype Scanned = Scanned(harts: seq<HartInfo>, panicked: bool)

  function Scan(table: seq<byte>, offset: nat, steps: nat): Scanned
    requires |table| >= RHCT_PREFIX
    decreases steps
  {
    if steps == 0 then Scanned([], false)
    else
      match NodeStepAt(table, offset)
      case Crash => Scanned([], true)
      case Skip(next) => Scan(table, next, steps - 1)
      case Hart(h, next) =>
        var rest := Scan(table, next, steps - 1);
        Scanned([h] + rest.harts, rest.panicked)
  }

  /** The effect of one `next` on what is still to come. */
  function Emitted(r: Step<HartInfo>, later: Scanned): Scanned
  {
    match r
    case Done => later
    case Panic => Scanned([], true)
    case Yield(h) => Scanned([h] + later.harts, later.panicked)
  }

  /** The walk yields at most one node per step, and every node it yields is a HART_INFO node
      lying in the region. */
  lemma {:induction false} ScanFacts(table: seq<byte>, offset: nat, steps: nat)
    requires |table| >= RHCT_PREFIX
    ensures |Scan(table, offset, steps).harts| <= steps
    ensures forall i :: 0 <= i < |Scan(table, offset, steps).harts| ==>
              HartInfoIn(Nodes(table), Scan(table, offset, steps).harts[i])
    decreases steps
  {
    if steps > 0 {
      match NodeStepAt(table, offset)
      case Crash =>
      case Skip(next) =>
        ScanFacts(table, next, steps - 1);
      case Hart(h, next) =>
        ScanFacts(table, next, steps - 1);
        var rest := Scan(table, next, steps - 1);
        assert forall i :: 0 < i < 1 + |rest.harts| ==> ([h] + rest.harts)[i] == rest.harts[i - 1];
    }
  }

  /** `Rhct::len` bounds the walk: `nodes()` yields at most `len()` nodes, and none at all when
      `is_empty` holds. */
  lemma EmptyTableNoHarts(table: seq<byte>)
    requires |table| >= RHCT_PREFIX
    ensures var p := RhctPrefix(table);
            |Scan(table, p.nodesOffset, p.nodesLen).harts| <= p.nodesLen < Pow256(4)
    ensures var p := RhctPrefix(table);
            p.nodesLen == 0 ==> Scan(table, p.nodesOffset, p.nodesLen) == Scanned([], false)
  {
    var p := RhctPrefix(table);
    ScanFacts(table, p.nodesOffset, p.nodesLen);
  }

  /** `Header::is_empty`: a found node of length 0 does not move the walk on, so the next
      step looks at the same node again (were it a HART_INFO node, sizing it panics). */
  lemma EmptyNodeStays(table: seq<byte>, offset: nat)
    requires |table| >= RHCT_PREFIX && GetNode(table, offset).Found? && GetNode(table, offset).len == 0
    ensures NodeStepAt(table, offset) == Skip(offset) || NodeStepAt(table, offset) == Crash
  {
  }

  /** The iterator `Rhct::nodes` returns: the remaining part of the range `0..nodes_len` and
      the captured `offset`. */
  class HartInfoNodes {
    const table: seq<byte>
    var offset: nat
    var remaining: nat

    /** `nodes()`: the walk starts at `nodes_offset` and runs `nodes_len` steps. */
    constructor (table: seq<byte>)
      requires |table| >= RHCT_PREFIX
      ensures this.table == table
      ensures offset == RhctPrefix(table).nodesOffset && remaining == RhctPrefix(table).nodesLen
    {
      this.table := table;
      offset := RhctPrefix(table).nodesOffset;
      remaining := RhctPrefix(table).nodesLen;
    }

    /** The `filter_map` closure: looks up the node at the captured offset, moves the offset
        past a found node, and keeps it when it is a HART_INFO node. */
    method Visit() returns (r: Outcome<Option<HartInfo>>)
      requires |table| >= RHCT_PREFIX
      modifies this`offset
      ensures match NodeStepAt(table, old(offset))
              case Crash => r.Panics?
              case Skip(next) => r == Value(None) && offset == next
              case Hart(h, next) => r == Value(Some(h)) && offset == next
    {
      var lookup := GetNode(table, offset);
      if lookup.Underflow? {
        return Panics;
      }
      if !lookup.Found? {
        return Value(None);
      }
      offset := offset + lookup.len;
      if NodeType(Nodes(table), lookup.at) != HART_INFO {
        return Value(None);
      }
      if lookup.len < HART_INFO_PREFIX {
        return Panics;
      }
      return Value(Some(HartInfo(lookup.at, lookup.len)));
    }

    /** `next` of the `filter_map` over `0..nodes_len`: runs the closure until it keeps a
        node or the range is exhausted. */
    method Next() returns (r: Step<HartInfo>)
      requires |table| >= RHCT_PREFIX
      modifies this
      ensures r.Done? ==> remaining == 0
      ensures Scan(table, old(offset), old(remaining)) == Emitted(r, Scan(table, offset, remaining))
    {
      while remaining > 0
        invariant Scan(table, old(offset), old(remaining)) == Scan(table, offset, remaining)
        decreases remaining
      {
        remaining := remaining - 1;
        var v := Visit();
        if v.Panics? {
          return Panic;
        }
        if v.value.Some? {
          return Yield(v.value.value);
        }
      }
      return Done;
    }
  }

  // ---------------------------------------------------------------- HartInfo

  /** `HartInfo::acpi_processor_uid`: the u32 after the node header and `offsets_len`. */
  function HartInfoUid(nodes: seq<byte>, h: HartInfo): (uid: nat)
    requires HartInfoIn(nodes, h)
    ensures Size(HartInfoLayout) == HART_INFO_PREFIX
    ensures uid == Field(HartInfoLayout, nodes[h.at..h.at + h.len], 2) && uid < Pow256(4)
  {
    var node := nodes[h.at..h.at + h.len];
    NodeLayoutFacts();
    FieldIsSlice(HartInfoLayout, node, 2);
    assert 12 <= |node|;
    assert forall j :: 0 <= j < 4 ==> node[8..12][j] == nodes[h.at + 8..h.at + 12][j];
    assert node[8..12] == nodes[h.at + 8..h.at + 12];
    LeAt(nodes, h.at + 8, 4)
  }

  /** The number of offsets `HartInfo::from_header` gives the node: `(len - 12) / 4`, from the
      node length and not from `offsets_len`. */
  function OffsetsCount(h: HartInfo): (n: nat)
    requires HART_INFO_PREFIX <= h.len
    ensures HART_INFO_PREFIX + 4 * n <= h.len < HART_INFO_PREFIX + 4 * (n + 1)
  {
    (h.len - HART_INFO_PREFIX) / 4
  }

  /** The `i`-th table-relative offset in the node's offset array. */
  function EntryOffset(nodes: seq<byte>, h: HartInfo, i: nat): nat
    requires HartInfoIn(nodes, h) && i < OffsetsCount(h)
  {
    LeAt(nodes, h.at + HART_INFO_PREFIX + 4 * i, 4)
  }

  /** The node types `HartInfo::entries` dispatches to. */
  datatype EntryKind = IsaStringNode | CmoInfoNode | MmuInfoNode | UnknownNode

  function KindOf(nodeType: nat): EntryKind
  {
    if nodeType == ISA_STRING then IsaStringNode
    else if nodeType == CMO_INFO then CmoInfoNode
    else if nodeType == MMU_INFO then MmuInfoNode
    else UnknownNode
  }

  /** An `Entry`: the node's kind, region offset and `len`. */
  datatype RhctEntry = RhctEntry(kind: EntryKind, at: nat, len: nat)

  /** The item `HartInfo::entries` produces for index `i`: the node at offset `i` found by
      `get_node(..).unwrap()` (a failed lookup panics) and typed by its header. The ISA string
      and unknown shapes are sized by subtracting their prefix (8 and 6 bytes), which panics
      below it. */
  function EntryAt(table: seq<byte>, h: HartInfo, i: nat): Outcome<RhctEntry>
    requires |table| >= RHCT_PREFIX && HartInfoIn(Nodes(table), h) && i < OffsetsCount(h)
  {
    var nodes := Nodes(table);
    var lookup := GetNode(table, EntryOffset(nodes, h, i));
    if !lookup.Found? then Panics
    else
      var kind := KindOf(NodeType(nodes, lookup.at));
      if kind == IsaStringNode && lookup.len < 8 then Panics
      else if kind == UnknownNode && lookup.len < NODE_HEADER_SIZE then Panics
      else Value(RhctEntry(kind, lookup.at, lookup.len))
  }

  /** `HartInfo::entries`: one item per offset, in array order. */
  function Entries(table: seq<byte>, h: HartInfo): (es: seq<Outcome<RhctEntry>>)
    requires |table| >= RHCT_PREFIX && HartInfoIn(Nodes(table), h)
    ensures |es| == OffsetsCount(h)
  {
    seq(OffsetsCount(h), i requires 0 <= i < OffsetsCount(h) => EntryAt(table, h, i))
  }

  /** Item `i` of `entries` is the node the `i`-th offset names, lying in the region and of
      the kind its type selects; it panics exactly when that offset names no node or the node
      is shorter than its shape's prefix. */
  lemma EntriesFacts(table: seq<byte>, h: HartInfo, i: nat)
    requires |table| >= RHCT_PREFIX && HartInfoIn(Nodes(table), h) && i < OffsetsCount(h)
    ensures var nodes := Nodes(table);
            var e := Entries(table, h)[i];
            e.Value? ==>
              e.value.at + RHCT_PREFIX == EntryOffset(nodes, h, i) &&
              e.value.at + NODE_HEADER_SIZE <= |nodes| && e.value.at + e.value.len <= |nodes| &&
              e.value.len == NodeLen(nodes, e.value.at) &&
              e.value.kind == KindOf(NodeType(nodes, e.value.at))
    ensures var nodes := Nodes(table);
            var lookup := GetNode(table, EntryOffset(nodes, h, i));
            Entries(table, h)[i].Panics? <==>
              !lookup.Found? ||
              (KindOf(NodeType(nodes, lookup.at)) == IsaStringNode && lookup.len < 8) ||
              (KindOf(NodeType(nodes, lookup.at)) == UnknownNode && lookup.len < NODE_HEADER_SIZE)
  {
  }

  /** `Unknown::data`: the node after its 6-byte header (`len - 6` bytes). */
  function UnknownData(nodes: seq<byte>, e: RhctEntry): (d: seq<byte>)
    requires e.kind == UnknownNode && NODE_HEADER_SIZE <= e.len && e.at + e.len <= |nodes|
    ensures |d| == e.len - NODE_HEADER_SIZE
    ensures nodes[e.at..e.at + e.len] == nodes[e.at..e.at + NODE_HEADER_SIZE] + d
  {
    nodes[e.at + NODE_HEADER_SIZE..e.at + e.len]
  }

  // ---------------------------------------------------------------- node shapes

  /** `IsaString::len`: the stored `isa_string_len` (u16 at node byte 6) minus 1; the
      subtraction underflows when it is 0. */
  function IsaStringLen(nodes: seq<byte>, e: RhctEntry): nat
    requires e.kind == IsaStringNode && 8 <= e.len && e.at + e.len <= |nodes|
    requires LeAt(nodes, e.at + 6, 2) >= 1
  {
    LeAt(nodes, e.at + 6, 2) - 1
  }

  /** `IsaString::as_bytes`: the first `len()` bytes of the string after the 8-byte prefix;
      slicing panics when that runs past the node. */
  function IsaStringBytes(nodes: seq<byte>, e: RhctEntry): (b: seq<byte>)
    requires e.kind == IsaStringNode && 8 <= e.len && e.at + e.len <= |nodes|
    requires LeAt(nodes, e.at + 6, 2) >= 1 && 8 + IsaStringLen(nodes, e) <= e.len
  {
    nodes[e.at + 8..e.at + 8 + IsaStringLen(nodes, e)]
  }

  /** `IsaString::is_empty`. */
  predicate IsaStringEmpty(nodes: seq<byte>, e: RhctEntry)
    requires e.kind == IsaStringNode && 8 <= e.len && e.at + e.len <= |nodes|
    requires LeAt(nodes, e.at + 6, 2) >= 1
  {
    IsaStringLen(nodes, e) == 0
  }

  /** The string has `isa_string_len - 1` bytes (the stored length counts a terminating NUL),
      lies inside the node, and is empty exactly when `is_empty` says so. */
  lemma IsaStringFacts(nodes: seq<byte>, e: RhctEntry)
    requires e.kind == IsaStringNode && 8 <= e.len && e.at + e.len <= |nodes|
    requires LeAt(nodes, e.at + 6, 2) >= 1 && 8 + IsaStringLen(nodes, e) <= e.len
    ensures |IsaStringBytes(nodes, e)| + 1 == LeAt(nodes, e.at + 6, 2)
    ensures IsaStringBytes(nodes, e) == nodes[e.at..e.at + e.len][8..8 + IsaStringLen(nodes, e)]
    ensures IsaStringEmpty(nodes, e) <==> IsaStringBytes(nodes, e) == []
  {
  }

  /** The base-2 logarithm of a power of two. */
  function Log2(n: nat): nat
    requires n >= 1
  {
    if n == 1 then 0 else 1 + Log2(n / 2)
  }

  lemma {:induction false} Log2Pow2(s: nat)
    ensures Log2(Pow2(s)) == s
  {
    if s > 0 {
      Log2Pow2(s - 1);
      assert Pow2(s) / 2 == Pow2(s - 1);
    }
  }

  /** `CmoInfo::{cbom,cbop,cboz}_block_size`: `1 << field`. The shift of a 64-bit `usize`
      overflows from 64 on. */
  function BlockSize(shift: byte): (r: nat)
    requires shift < 64
    ensures r == Pow2(shift as nat)
    ensures 1 <= r < Pow2(64) && Log2(r) == shift as nat
  {
    Log2Pow2(shift as nat);
    Pow2Monotone(shift as nat, 64);
    Pow2(shift as nat)
  }

  lemma {:induction false} Pow2Monotone(a: nat, b: nat)
    requires a < b
    ensures Pow2(a) < Pow2(b)
    decreases b
  {
    if a + 1 < b {
      Pow2Monotone(a, b - 1);
    }
  }

  /** The three block-size exponents of a CMO node (cbom, cbop, cboz): the one-byte fields
      at node bytes 7, 8 and 9 of the packed `CmoInfo`. */
  function CmoShifts(nodes: seq<byte>, e: RhctEntry): (s: (byte, byte, byte))
    requires e.kind == CmoInfoNode && e.at + 10 <= |nodes|
    ensures Size(CmoInfoLayout) == 10
    ensures var node := nodes[e.at..e.at + 10];
            s.0 as nat == Field(CmoInfoLayout, node, 2) && s.1 as nat == Field(CmoInfoLayout, node, 3) &&
            s.2 as nat == Field(CmoInfoLayout, node, 4)
  {
    var node := nodes[e.at..e.at + 10];
    var l := CmoInfoLayout;
    NodeLayoutFacts();
    FieldIsSlice(l, node, 2);
    FieldIsSlice(l, node, 3);
    FieldIsSlice(l, node, 4);
    assert node[7] == nodes[e.at + 7] && node[8] == nodes[e.at + 8] && node[9] == nodes[e.at + 9];
    assert node[7..8] == [node[7]];
    assert node[8..9] == [node[8]];
    assert node[9..10] == [node[9]];
    (nodes[e.at + 7], nodes[e.at + 8], nodes[e.at + 9])
  }

  /** `CmoInfo::{cbom,cbop,cboz}_block_size` of a node whose exponents are below 64. */
  function BlockSizes(nodes: seq<byte>, e: RhctEntry): (r: (nat, nat, nat))
    requires e.kind == CmoInfoNode && e.at + 10 <= |nodes|
    requires nodes[e.at + 7] < 64 && nodes[e.at + 8] < 64 && nodes[e.at + 9] < 64
    ensures r == (Pow2(nodes[e.at + 7] as nat), Pow2(nodes[e.at + 8] as nat), Pow2(nodes[e.at + 9] as nat))
  {
    var s := CmoShifts(nodes, e);
    (BlockSize(s.0), BlockSize(s.1), BlockSize(s.2))
  }

  /** `MmuInfo::mmu_type`: the u16 at node byte 7 (`SV39` = 0, `SV48` = 1, `SV57` = 2). */
  function MmuType(nodes: seq<byte>, e: RhctEntry): (t: nat)
    requires e.kind == MmuInfoNode && e.at + 9 <= |nodes|
    ensures t < 65536
  {
    LeAt(nodes, e.at + 7, 2)
  }
}
