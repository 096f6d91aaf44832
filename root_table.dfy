/** `RootTable` of `src/sdt.rs`: locating the RSDT or XSDT from the RSDP, walking its pointer
    array (`all_tables`), and finding the `index`-th table with a given signature. */
module RootTables {
  import opened Bytes
  import opened Wrappers
  import opened Sdt
  import opened Mapping

  /** What the safety contract of `RootTable::new` demands of the root table: the signature
      the revision selects, and a length that covers the header. */
  ghost predicate RootHeaderValid(memory: nat -> byte, rsdp: seq<byte>)
    requires RsdpReadable(rsdp)
  {
    var h := PhysHeader(memory, RootAddress(rsdp));
    h.Signature() == SignatureOf(RootKindFor(RsdpRevision(rsdp))) && h.Length() >= HEADER_SIZE
  }

  /** A table the firmware lists covers at least its own header, so the full-length handle
      `clone_header` makes can read the header back. A table shorter than the fixed part of
      its type is allowed: only sizing it (`get_table`) fails. */
  ghost predicate HeaderWellFormed(h: Header)
  {
    h.Length() >= HEADER_SIZE
  }

  /** The physical table addresses stored in the pointer array of `kind` (4- or 8-byte
      little-endian slots after the header) of the table at `phys`. */
  ghost function PhysEntries(memory: nat -> byte, kind: TableKind, phys: nat, count: nat)
    : (e: seq<nat>)
    requires IsRoot(kind)
    ensures |e| == count
  {
    seq(count, i requires 0 <= i < count =>
      LeDecode(PhysRead(memory, phys + HEADER_SIZE + i * Stride(kind), Stride(kind))))
  }

  /** A root table whose pointer array stays mapped for the table's lifetime (the corrected
      constructor keeps the full-length handle in `root`). `entries` are the addresses the
      array holds. */
  class RootTable {
    const acpiRevision: byte
    const kind: TableKind
    const root: Mapped
    const bridge: Bridge
    ghost const entries: seq<nat>
    ghost const rootSpan: Span

    /** The root handle's mapping `rootSpan` covers the header and the whole pointer array,
        and the array holds `entries`. */
    ghost predicate Shape()
    {
      root.bridge == bridge && IsRoot(kind) && root.view == TableView(kind, |entries|) &&
      HEADER_SIZE + |entries| * Stride(kind) <= rootSpan.size &&
      entries == PhysEntries(bridge.memory, kind, rootSpan.phys, |entries|)
    }

    /** In the mapping ledger `mappings`, the root handle's mapping is still `rootSpan`. */
    ghost predicate MappedIn(mappings: map<nat, Span>)
    {
      Shape() && root.virt in mappings && mappings[root.virt] == rootSpan
    }

    ghost predicate Valid()
      reads bridge
    {
      bridge.Valid() && MappedIn(bridge.mappings)
    }

    /** `RootPtrs::len`. */
    function Count(): nat
    {
      if root.view.TableView? then root.view.count else 0
    }

    /** The headers of the listed tables, read from physical memory. */
    ghost function Headers(): (hs: seq<Header>)
      ensures |hs| == |entries|
    {
      seq(|entries|, i requires 0 <= i < |entries| => PhysHeader(bridge.memory, entries[i]))
    }

    ghost function Signatures(): (s: seq<seq<byte>>)
      ensures |s| == |entries|
    {
      seq(|entries|, i requires 0 <= i < |entries| => Headers()[i].Signature())
    }

    ghost predicate TablesWellFormed()
    {
      forall i :: 0 <= i < |entries| ==> HeaderWellFormed(Headers()[i])
    }

    /** Corrected `RootTable::new`: reads the revision, selects the RSDT (revision < 2) or the
        XSDT, maps the header, then the whole table, and keeps that handle. The pointer array
        is the one stored in physical memory after the root table's header. */
    constructor (rsdp: seq<byte>, bridge: Bridge)
      requires RsdpReadable(rsdp) && bridge.Valid() && RootHeaderValid(bridge.memory, rsdp)
      modifies bridge
      ensures Valid() && this.bridge == bridge
      ensures acpiRevision == RsdpRevision(rsdp) && kind == RootKindFor(acpiRevision)
      ensures Count() == |entries|
              == SliceCount(kind, PhysHeader(bridge.memory, RootAddress(rsdp)).Length())
      ensures entries == PhysEntries(bridge.memory, kind, RootAddress(rsdp), |entries|)
      ensures root.virt !in old(bridge.mappings)
      ensures bridge.mappings == old(bridge.mappings)[root.virt :=
                Span(RootAddress(rsdp), PhysHeader(bridge.memory, RootAddress(rsdp)).Length())]
    {
      var revision := RsdpRevision(rsdp);
      var k := RootKindFor(revision);
      var h := MapHeader(RootAddress(rsdp), bridge);
      var o := h.MapFull(k);
      assert o.Value?;
      var t := o.value;
      acpiRevision := revision;
      kind := k;
      root := t;
      this.bridge := bridge;
      entries := PhysEntries(bridge.memory, k, RootAddress(rsdp), t.view.count);
      rootSpan := Span(RootAddress(rsdp), PhysHeader(bridge.memory, RootAddress(rsdp)).Length());
    }

    /** The address in slot `i` of the mapped pointer array is `entries[i]`. */
    lemma EntryRead(i: nat)
      requires MappedIn(bridge.mappings) && i < |entries|
      ensures root.Live() && HEADER_SIZE + (i + 1) * Stride(kind) <= |root.Bytes()|
      ensures RootEntry(kind, root.Bytes(), i) == entries[i]
    {
      var span := rootSpan;
      var s := Stride(kind);
      assert HEADER_SIZE + (i + 1) * s <= HEADER_SIZE + |entries| * s;
      PhysReadSlice(bridge.memory, span.phys, span.size, HEADER_SIZE + i * s, HEADER_SIZE + i * s + s);
    }

    /** `all_tables`: an iterator over the listed tables. */
    method AllTables() returns (it: AllTablesIter)
      ensures fresh(it) && it.table == this && it.index == 0
    {
      it := new AllTablesIter(this);
    }

    /** `get_table_by_signature`: `all_tables().filter(signature == sig).nth(index)`. `nth`
        takes `index` matches from the filter and drops them, then returns the next one; the
        filter drops every table it rejects. So the only mapping left behind is the returned
        one, of the `index`-th matching table. */
    method GetTableBySignature(sig: seq<byte>, index: nat) returns (r: Option<Mapped>)
      requires Valid() && TablesWellFormed()
      modifies bridge
      ensures Valid()
      ensures r.Some? <==> NthMatch(Signatures(), sig, index).Some?
      ensures r.None? ==> bridge.mappings == old(bridge.mappings)
      ensures r.Some? ==> Returned(r.value, NthMatch(Signatures(), sig, index).value,
                                   old(bridge.mappings), bridge.mappings)
      ensures r.Some? ==> fresh(r.value) && r.value.view == HeaderView
    {
      var it := AllTables();
      assert Signatures()[..0] == [];
      var advanced := it.AdvanceBy(sig, index);
      if !advanced {
        return None;
      }
      r := it.TakeMatch(sig, index);
    }

    /** Handle `h` is the one mapping added to the ledger `before`, giving `after`: a live
        mapping of the whole of table `i`, whose header it reads. */
    ghost predicate Returned(h: Mapped, i: nat, before: map<nat, Span>, after: map<nat, Span>)
      reads bridge`mappings
    {
      i < |entries| && h.bridge == bridge && h.virt !in before &&
      after == before[h.virt := Span(entries[i], Headers()[i].Length())] &&
      h.Live() && h.TableHeader() == Headers()[i]
    }

    /** `get_table::<T>`: the `index`-th table of type `kind`, mapped whole and sized by its
        header (`map_full`); the intermediate header handle is dropped. A matched table of an
        unsized type that is shorter than the type's fixed part panics in the sizing, with
        every earlier mapping still in place. */
    method GetTable(kind: TableKind, index: nat) returns (r: Outcome<Option<Mapped>>)
      requires Valid() && TablesWellFormed()
      modifies bridge
      ensures Valid()
      ensures r == Value(None) <==> NthMatch(Signatures(), SignatureOf(kind), index).None?
      ensures r == Value(None) ==> bridge.mappings == old(bridge.mappings)
      ensures r.Panics? <==>
                NthMatch(Signatures(), SignatureOf(kind), index).Some? && Unsized(kind) &&
                Headers()[NthMatch(Signatures(), SignatureOf(kind), index).value].Length() < PrefixSize(kind)
      ensures r.Panics? ==> Extends(old(bridge.mappings), bridge.mappings)
      ensures r.Value? && r.value.Some? ==>
                var i := NthMatch(Signatures(), SignatureOf(kind), index).value;
                Returned(r.value.value, i, old(bridge.mappings), bridge.mappings) &&
                fresh(r.value.value) && r.value.value.view == FromHeader(kind, Headers()[i])
    {
      var found := GetTableBySignature(SignatureOf(kind), index);
      if found.None? {
        return Value(None);
      }
      var h := found.value;
      ghost var i := NthMatch(Signatures(), SignatureOf(kind), index).value;
      ghost var mid := bridge.mappings;
      var o := h.MapFull(kind);
      if o.Panics? {
        return Panics;
      }
      var t := o.value;
      assert bridge.mappings == old(bridge.mappings)[t.virt := mid[h.virt]];
      return Value(Some(t));
    }

    /** Dropping the table drops its root handle. */
    method Drop()
      requires Valid()
      modifies bridge
      ensures bridge.Valid() && bridge.mappings == old(bridge.mappings) - {root.virt}
    {
      root.Drop();
    }
  }

  /** The iterator `all_tables` returns: for each pointer, `map_header` then `clone_header`
      (remapping to the table's full length), dropping the header-sized handle. */
  class AllTablesIter {
    const table: RootTable
    var index: nat

    constructor (table: RootTable)
      ensures this.table == table && index == 0
    {
      this.table := table;
      index := 0;
    }

    /** `next`: the next listed table, mapped whole. */
    method Next() returns (r: Option<Mapped>)
      requires table.Valid() && table.TablesWellFormed() && index <= table.Count()
      modifies this, table.bridge
      ensures table.Valid()
      ensures old(index) == table.Count() ==>
                r.None? && index == old(index) && table.bridge.mappings == old(table.bridge.mappings)
      ensures old(index) < table.Count() ==>
                index == old(index) + 1 && r.Some? && fresh(r.value) &&
                r.value.view == HeaderView &&
                table.Returned(r.value, old(index), old(table.bridge.mappings), table.bridge.mappings)
    {
      if index == table.Count() {
        return None;
      }
      table.EntryRead(index);
      var phys := RootEntry(table.kind, table.root.Bytes(), index);
      assert HeaderWellFormed(table.Headers()[index]);
      r := MapWhole(phys, table.bridge);
      index := index + 1;
    }

    /** `Filter::next` with predicate `signature == sig`: takes tables until one matches,
        dropping each one that does not. */
    method NextMatching(sig: seq<byte>) returns (r: Option<Mapped>)
      requires table.Valid() && table.TablesWellFormed() && index <= table.Count()
      modifies this, table.bridge
      ensures table.Valid() && old(index) <= index <= table.Count()
      ensures forall t :: old(index) <= t < index - (if r.Some? then 1 else 0) ==>
                table.Signatures()[t] != sig
      ensures r.None? ==>
                index == table.Count() && table.bridge.mappings == old(table.bridge.mappings)
      ensures r.Some? ==>
                old(index) < index && table.Signatures()[index - 1] == sig &&
                fresh(r.value) && r.value.view == HeaderView &&
                table.Returned(r.value, index - 1, old(table.bridge.mappings), table.bridge.mappings)
      decreases table.Count() - index
    {
      var sigs := table.Signatures();
      while true
        invariant table.Valid() && old(index) <= index <= table.Count()
        invariant table.bridge.mappings == old(table.bridge.mappings)
        invariant forall t :: old(index) <= t < index ==> sigs[t] != sig
        decreases table.Count() - index
      {
        var item := Next();
        if item.None? {
          return None;
        }
        var h := item.value;
        if h.TableHeader().Signature() == sig {
          return item;
        }
        ghost var added := table.bridge.mappings;
        h.Drop();
        AddRemove(old(table.bridge.mappings), h.virt, added[h.virt]);
      }
    }

    /** The returning half of `nth(n)` once `n` matches are behind the iterator: the next
        matching table, if there is one, is the `n`-th. */
    method TakeMatch(sig: seq<byte>, n: nat) returns (r: Option<Mapped>)
      requires table.Valid() && table.TablesWellFormed() && index <= table.Count()
      requires CountMatches(table.Signatures()[..index], sig) == n
      modifies this, table.bridge
      ensures table.Valid()
      ensures r.Some? <==> NthMatch(table.Signatures(), sig, n).Some?
      ensures r.None? ==> table.bridge.mappings == old(table.bridge.mappings)
      ensures r.Some? ==> table.Returned(r.value, NthMatch(table.Signatures(), sig, n).value,
                                         old(table.bridge.mappings), table.bridge.mappings)
      ensures r.Some? ==> fresh(r.value) && r.value.view == HeaderView
    {
      ghost var sigs := table.Signatures();
      r := NextMatching(sig);
      if r.None? {
        CountSkip(sigs, sig, old(index), index);
        assert sigs[..index] == sigs;
      } else {
        CountSkip(sigs, sig, old(index), index - 1);
        NthMatchComplete(sigs, sig, n, index - 1);
      }
    }

    /** One step of `advance_by` on the filtered iterator: take the next matching table and
        drop it. Reports whether there was one. */
    method SkipMatch(sig: seq<byte>) returns (skipped: bool)
      requires table.Valid() && table.TablesWellFormed() && index <= table.Count()
      modifies this, table.bridge
      ensures table.Valid() && table.bridge.mappings == old(table.bridge.mappings)
      ensures old(index) <= index <= table.Count()
      ensures var sigs := table.Signatures();
              skipped ==> CountMatches(sigs[..index], sig) == CountMatches(sigs[..old(index)], sig) + 1
      ensures var sigs := table.Signatures();
              !skipped ==> index == table.Count() &&
                           CountMatches(sigs, sig) == CountMatches(sigs[..old(index)], sig)
    {
      ghost var sigs := table.Signatures();
      var r := NextMatching(sig);
      if r.None? {
        CountSkip(sigs, sig, old(index), index);
        assert sigs[..index] == sigs;
        return false;
      }
      CountSkip(sigs, sig, old(index), index - 1);
      CountPrefixStep(sigs, sig, index - 1);
      ghost var added := table.bridge.mappings;
      r.value.Drop();
      AddRemove(old(table.bridge.mappings), r.value.virt, added[r.value.virt]);
      return true;
    }

    /** The skipping half of `nth(n)` on the filtered iterator (`advance_by`): takes `n`
        matching tables and drops them. Reports whether there were `n` to take. */
    method AdvanceBy(sig: seq<byte>, n: nat) returns (advanced: bool)
      requires table.Valid() && table.TablesWellFormed() && index <= table.Count()
      modifies this, table.bridge
      ensures table.Valid() && table.bridge.mappings == old(table.bridge.mappings)
      ensures old(index) <= index <= table.Count()
      ensures var sigs := table.Signatures();
              advanced <==> CountMatches(sigs[..index], sig) == CountMatches(sigs[..old(index)], sig) + n
      ensures var sigs := table.Signatures();
              !advanced ==> CountMatches(sigs, sig) < CountMatches(sigs[..old(index)], sig) + n
    {
      ghost var sigs := table.Signatures();
      ghost var base := CountMatches(sigs[..index], sig);
      var taken := 0;
      while taken < n
        invariant table.Valid() && table.bridge.mappings == old(table.bridge.mappings)
        invariant old(index) <= index <= table.Count() && taken <= n
        invariant CountMatches(sigs[..index], sig) == base + taken
      {
        var skipped := SkipMatch(sig);
        if !skipped {
          assert sigs[..index] == sigs;
          return false;
        }
        taken := taken + 1;
      }
      return true;
    }
  }

  /** The closure `all_tables` maps over the pointers: `map_header`, then `clone_header`, then
      the header-sized handle is dropped. What is left is one mapping of the whole table. */
  method MapWhole(phys: nat, bridge: Bridge) returns (r: Option<Mapped>)
    requires bridge.Valid() && PhysHeader(bridge.memory, phys).Length() >= HEADER_SIZE
    modifies bridge
    ensures bridge.Valid() && r.Some? && fresh(r.value) && r.value.bridge == bridge
    ensures r.value.view == HeaderView && r.value.virt !in old(bridge.mappings)
    ensures bridge.mappings
            == old(bridge.mappings)[r.value.virt := Span(phys, PhysHeader(bridge.memory, phys).Length())]
    ensures r.value.Live() && r.value.TableHeader() == PhysHeader(bridge.memory, phys)
  {
    var probe := MapHeader(phys, bridge);
    var full := probe.CloneHeader();
    ghost var both := bridge.mappings;
    probe.Drop();
    assert bridge.mappings == both - {probe.virt};
    r := Some(full);
  }

  /** `RootTable::new` as written: `map_table` maps only the 36 header bytes, sizes the pointer
      array from `length`, and the handle is dropped at the end of the branch. The pointer kept
      in `root_ptrs` refers to a mapping that no longer exists, and while it existed it did not
      cover the array. */
  method NewAsWritten(rsdp: seq<byte>, bridge: Bridge)
    returns (acpiRevision: byte, kind: TableKind, rootPtrs: nat, count: nat)
    requires RsdpReadable(rsdp) && bridge.Valid() && RootHeaderValid(bridge.memory, rsdp)
    modifies bridge
    ensures bridge.Valid() && acpiRevision == RsdpRevision(rsdp)
    ensures kind == RootKindFor(acpiRevision)
    ensures count == SliceCount(kind, PhysHeader(bridge.memory, RootAddress(rsdp)).Length())
    ensures rootPtrs !in old(bridge.mappings) && rootPtrs !in bridge.mappings
    ensures bridge.mappings == old(bridge.mappings)
  {
    acpiRevision := RsdpRevision(rsdp);
    kind := RootKindFor(acpiRevision);
    var rsdt := MapTable(kind, RootAddress(rsdp), bridge);
    rootPtrs := rsdt.virt;
    count := rsdt.view.count;
    assert bridge.mappings[rootPtrs].size == HEADER_SIZE;
    rsdt.Drop();
  }
}
