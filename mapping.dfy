/** The mapping layer of `src/sdt.rs`: the `Bridge` the host kernel supplies to map physical
    memory, and the `Mapped` handle that owns one mapping and unmaps it when dropped. */
module Mapping {
  import opened Bytes
  import opened Wrappers
  import opened Sdt

  /** A mapping: the physical address it starts at and how many bytes it covers. */
  datatype Span = Span(phys: nat, size: nat)

  /** A well-behaved `Bridge`. Physical memory is the constant `memory`; `mappings` is the
      ledger of live virtual mappings. Every `map` and `remap` hands out a fresh, non-zero
      virtual address, and `unmap` ends exactly the mapping it is given. */
  class Bridge {
    const memory: nat -> byte
    var mappings: map<nat, Span>
    var nextVirt: nat

    ghost predicate Valid()
      reads this
    {
      0 < nextVirt && forall v :: v in mappings ==> 0 < v < nextVirt
    }

    constructor (memory: nat -> byte)
      ensures Valid() && this.memory == memory && mappings == map[]
    {
      this.memory := memory;
      mappings := map[];
      nextVirt := 1;
    }

    /** `Bridge::map`: a new mapping of `size` bytes at `phys`; nothing else changes. */
    method Map(phys: nat, size: nat) returns (virt: nat)
      requires Valid()
      modifies this
      ensures Valid() && virt != 0 && virt !in old(mappings)
      ensures mappings == old(mappings)[virt := Span(phys, size)]
    {
      virt := nextVirt;
      mappings := mappings[virt := Span(phys, size)];
      nextVirt := nextVirt + 1;
    }

    /** `Bridge::remap`: a new mapping of the same physical start with `newSize` bytes. The old
        mapping stays live: its owner unmaps it. */
    method Remap(virt: nat, newSize: nat) returns (newVirt: nat)
      requires Valid() && virt in mappings
      modifies this
      ensures Valid() && newVirt != 0 && newVirt !in old(mappings)
      ensures mappings == old(mappings)[newVirt := Span(old(mappings)[virt].phys, newSize)]
    {
      newVirt := Map(mappings[virt].phys, newSize);
    }

    /** `Bridge::unmap`: ends one live mapping. */
    method Unmap(virt: nat)
      requires Valid() && virt in mappings
      modifies this
      ensures Valid() && mappings == old(mappings) - {virt}
    {
      mappings := mappings - {virt};
    }

    /** The `n` bytes at offset `off` of a live mapping: the physical bytes it covers. */
    function Read(virt: nat, off: nat, n: nat): (r: seq<byte>)
      reads this`mappings
      requires virt in mappings && off + n <= mappings[virt].size
      ensures r == PhysRead(memory, mappings[virt].phys + off, n)
    {
      PhysRead(memory, mappings[virt].phys + off, n)
    }
  }

  /** Adding a fresh mapping and removing it again leaves the ledger as it was. */
  lemma AddRemove(m: map<nat, Span>, v: nat, s: Span)
    requires v !in m
    ensures m[v := s] - {v} == m
  {
    assert (m[v := s] - {v}).Keys == m.Keys;
  }

  /** The header stored in physical memory at `phys`. */
  function PhysHeader(memory: nat -> byte, phys: nat): Header
  {
    ParseHeader(PhysRead(memory, phys, HEADER_SIZE))
  }

  /** `Mapped<T, B>`: a non-null pointer into a mapping made through `bridge`, viewed as a bare
      header or as a whole table. The handle owns its mapping until `Drop` or `IntoInner`. */
  class Mapped {
    const bridge: Bridge
    const virt: nat
    const view: View

    /** `Mapped::new`; the null check is the `virt != 0` requirement. */
    constructor (bridge: Bridge, virt: nat, view: View)
      requires virt != 0
      ensures this.bridge == bridge && this.virt == virt && this.view == view
    {
      this.bridge := bridge;
      this.virt := virt;
      this.view := view;
    }

    /** The handle's mapping is live and covers at least the header. */
    predicate Live()
      reads bridge`mappings
    {
      virt in bridge.mappings && bridge.mappings[virt].size >= HEADER_SIZE
    }

    function Phys(): nat
      reads bridge`mappings
      requires virt in bridge.mappings
    {
      bridge.mappings[virt].phys
    }

    /** Every byte the mapping covers. */
    function Bytes(): (b: seq<byte>)
      reads bridge`mappings
      requires Live()
      ensures |b| == bridge.mappings[virt].size && |b| >= HEADER_SIZE
      ensures b == PhysRead(bridge.memory, Phys(), bridge.mappings[virt].size)
    {
      bridge.Read(virt, 0, bridge.mappings[virt].size)
    }

    /** `Deref` to the header (or `Sdt::header`): the header in physical memory at the
        mapping's start. */
    function TableHeader(): (h: Header)
      reads bridge`mappings
      requires Live()
      ensures h == PhysHeader(bridge.memory, Phys())
    {
      ParseHeader(bridge.Read(virt, 0, HEADER_SIZE))
    }

    /** `Drop`: unmaps this handle's mapping and nothing else. A second drop cannot be written,
        because afterwards the mapping is no longer live. */
    method Drop()
      requires bridge.Valid() && virt in bridge.mappings
      modifies bridge
      ensures bridge.Valid() && bridge.mappings == old(bridge.mappings) - {virt}
    {
      bridge.Unmap(virt);
    }

    /** `into_inner`: gives up ownership without unmapping; the mapping stays live. */
    method IntoInner() returns (p: nat)
      ensures p == virt
    {
      p := virt;
    }

    /** `clone_header`: a second handle on the same header, remapped to the table's full
        `length`; the original stays live and unchanged. */
    method CloneHeader() returns (c: Mapped)
      requires view == HeaderView && bridge.Valid() && Live()
      modifies bridge
      ensures bridge.Valid() && fresh(c) && c.bridge == bridge && c.view == HeaderView
      ensures c.virt !in old(bridge.mappings)
      ensures bridge.mappings
              == old(bridge.mappings)[c.virt := Span(old(Phys()), old(TableHeader()).Length())]
      ensures Live() && TableHeader() == old(TableHeader())
      ensures old(TableHeader()).Length() >= HEADER_SIZE ==>
                c.Live() && c.TableHeader() == old(TableHeader())
    {
      var size := TableHeader().Length();
      var addr := bridge.Remap(virt, size);
      c := new Mapped(bridge, addr, HeaderView);
    }

    /** `Clone` of a whole-table handle: the same, keeping the table view. */
    method Clone() returns (c: Mapped)
      requires view.TableView? && bridge.Valid() && Live()
      modifies bridge
      ensures bridge.Valid() && fresh(c) && c.bridge == bridge && c.view == view
      ensures c.virt !in old(bridge.mappings)
      ensures bridge.mappings
              == old(bridge.mappings)[c.virt := Span(old(Phys()), old(TableHeader()).Length())]
      ensures Live() && TableHeader() == old(TableHeader())
      ensures old(TableHeader()).Length() >= HEADER_SIZE ==>
                c.Live() && c.TableHeader() == old(TableHeader())
    {
      var size := TableHeader().Length();
      var addr := bridge.Remap(virt, size);
      c := new Mapped(bridge, addr, view);
    }

    /** `map_full`: checks the signature (a failed `assert!` panics before anything is
        mapped), remaps the table to its full `length`, sizes the view from the header and drops
        the header handle. Sizing an unsized table whose `length` is below its prefix underflows
        in `header_dynamic_size` and panics after the remap: the ledger at that point still
        holds the header handle's mapping and has gained the full-length one. */
    method MapFull(kind: TableKind) returns (o: Outcome<Mapped>)
      requires view == HeaderView && bridge.Valid() && Live()
      modifies bridge
      ensures bridge.Valid()
      ensures o.Panics? <==> old(TableHeader()).Signature() != SignatureOf(kind) ||
                             (Unsized(kind) && old(TableHeader()).Length() < PrefixSize(kind))
      ensures old(TableHeader()).Signature() != SignatureOf(kind) ==>
                bridge.mappings == old(bridge.mappings)
      ensures o.Panics? && old(TableHeader()).Signature() == SignatureOf(kind) ==>
                Extends(old(bridge.mappings), bridge.mappings) &&
                forall v :: v in bridge.mappings && v !in old(bridge.mappings) ==>
                  bridge.mappings[v] == Span(old(Phys()), old(TableHeader()).Length())
      ensures o.Value? ==>
                var t := o.value;
                fresh(t) && t.bridge == bridge && t.virt !in old(bridge.mappings) &&
                t.view == FromHeader(kind, old(TableHeader())) &&
                bridge.mappings == (old(bridge.mappings) - {virt})
                                   [t.virt := Span(old(Phys()), old(TableHeader()).Length())] &&
                (old(TableHeader()).Length() >= HEADER_SIZE ==>
                   t.Live() && t.TableHeader() == old(TableHeader()))
    {
      var h := TableHeader();
      if h.Signature() != SignatureOf(kind) {
        return Panics;
      }
      var addr := bridge.Remap(virt, h.Length());
      if Unsized(kind) && h.Length() < PrefixSize(kind) {
        return Panics;
      }
      var t := new Mapped(bridge, addr, FromHeader(kind, h));
      Drop();
      o := Value(t);
    }
  }

  /** Every mapping of the ledger `before` is still live, unchanged, in `after`. */
  ghost predicate Extends(before: map<nat, Span>, after: map<nat, Span>)
  {
    forall v :: v in before ==> v in after && after[v] == before[v]
  }

  /** `map_header`: maps the 36 header bytes at `phys`. */
  method MapHeader(phys: nat, bridge: Bridge) returns (m: Mapped)
    requires bridge.Valid()
    modifies bridge
    ensures bridge.Valid() && fresh(m) && m.bridge == bridge && m.view == HeaderView
    ensures m.virt !in old(bridge.mappings)
    ensures bridge.mappings == old(bridge.mappings)[m.virt := Span(phys, HEADER_SIZE)]
    ensures m.Live() && m.TableHeader() == PhysHeader(bridge.memory, phys)
  {
    var virt := bridge.Map(phys, HEADER_SIZE);
    m := new Mapped(bridge, virt, HeaderView);
  }

  /** `map_table`: maps only the 36 header bytes at `phys`, yet sizes the view from the
      header's `length` (the safety contract of `from_header_ptr` demands a matching
      signature). */
  method MapTable(kind: TableKind, phys: nat, bridge: Bridge) returns (m: Mapped)
    requires bridge.Valid()
    requires PhysHeader(bridge.memory, phys).Signature() == SignatureOf(kind)
    requires Unsized(kind) ==> PrefixSize(kind) <= PhysHeader(bridge.memory, phys).Length()
    modifies bridge
    ensures bridge.Valid() && fresh(m) && m.bridge == bridge
    ensures m.view == FromHeader(kind, PhysHeader(bridge.memory, phys))
    ensures m.virt !in old(bridge.mappings)
    ensures bridge.mappings == old(bridge.mappings)[m.virt := Span(phys, HEADER_SIZE)]
    ensures m.Live() && m.TableHeader() == PhysHeader(bridge.memory, phys)
  {
    var virt := bridge.Map(phys, HEADER_SIZE);
    m := new Mapped(bridge, virt, FromHeader(kind, PhysHeader(bridge.memory, phys)));
  }
}
