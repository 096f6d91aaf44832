/** The parts of `src/sdt.rs` that only compute: the common table header, signatures, the
    `Sdt` sizing rule of every table type, the RSDP fields the root locator reads, the root
    pointer arrays and the signature filter of `get_table_by_signature`. */
module Sdt {
  import opened Bytes
  import opened Layout
  import opened Wrappers

  // ---------------------------------------------------------------- table header

  /** Field widths of the packed 36-byte common header: signature, length, revision,
      checksum, oem_id, oem_table_id, oem_revision, creator_id, creator_revision. */
  const HeaderLayout: seq<nat> := [4, 4, 1, 1, 6, 8, 4, 4, 4]
  const HEADER_SIZE: nat := 36

  /** The header's layout: 36 bytes, `length` at byte 4 and `revision` at byte 8. */
  lemma HeaderLayoutFacts()
    ensures Size(HeaderLayout) == HEADER_SIZE
    ensures Offset(HeaderLayout, 1) == 4 && Offset(HeaderLayout, 2) == 8
    ensures Offset(HeaderLayout, 3) == 9 && Offset(HeaderLayout, 4) == 10
    ensures Offset(HeaderLayout, 5) == 16 && Offset(HeaderLayout, 6) == 24
    ensures Offset(HeaderLayout, 7) == 28 && Offset(HeaderLayout, 8) == 32
  {
    assert Offset(HeaderLayout, 1) == 4;
    assert Offset(HeaderLayout, 2) == 8;
    assert Offset(HeaderLayout, 3) == 9;
    assert Offset(HeaderLayout, 4) == 10;
    assert Offset(HeaderLayout, 5) == 16;
    assert Offset(HeaderLayout, 6) == 24;
    assert Offset(HeaderLayout, 7) == 28;
    assert Offset(HeaderLayout, 8) == 32;
    assert Offset(HeaderLayout, 9) == 36;
  }

  /** The 36 bytes of a header. */
  type HeaderBytes = b: seq<byte> | |b| == HEADER_SIZE
    witness seq(36, i => 0 as byte)

  /** A header as it sits in memory: the bytes of the packed structure, whose fields are read
      on access, as through a reference to the `#[repr(C, packed)]` struct. */
  datatype Header = Header(raw: HeaderBytes)
  {
    function Signature(): seq<byte>
    {
      raw[0..4]
    }

    function Length(): nat
    {
      LeAt(raw, 4, 4)
    }

    function Revision(): nat
    {
      raw[8] as nat
    }
  }

  /** The header overlaid on the first 36 bytes of `b`. */
  function ParseHeader(b: seq<byte>): (h: Header)
    requires |b| >= HEADER_SIZE
    ensures h.raw == b[..HEADER_SIZE]
  {
    Header(b[..HEADER_SIZE])
  }

  /** The header's fields, decoded. */
  datatype HeaderFields = HeaderFields(
    signature: seq<byte>,
    length: nat,
    revision: nat,
    checksum: nat,
    oemId: seq<byte>,
    oemTableId: nat,
    oemRevision: nat,
    creatorId: nat,
    creatorRevision: nat)

  /** The header's fields, read from its bytes at their packed offsets. */
  function Fields(h: Header): HeaderFields
  {
    HeaderLayoutFacts();
    var fs := FieldsOf(HeaderLayout, h.raw);
    HeaderFields(h.raw[0..4], fs[1], fs[2], fs[3], h.raw[10..16], fs[5], fs[6], fs[7], fs[8])
  }


  /** The accessors read the same fields as the full decoding. */
  lemma AccessorsAgree(h: Header)
    ensures Fields(h).signature == h.Signature()
    ensures Fields(h).length == h.Length() && Fields(h).revision == h.Revision()
  {
    HeaderLayoutFacts();
    FieldsOfIndex(HeaderLayout, h.raw, 1);
    FieldIsSlice(HeaderLayout, h.raw, 1);
    FieldsOfIndex(HeaderLayout, h.raw, 2);
    FieldIsSlice(HeaderLayout, h.raw, 2);
    assert h.raw[8..9] == [h.raw[8]];
  }

  /** Field values that fit their widths. */
  predicate FieldsFit(f: HeaderFields)
  {
    |f.signature| == 4 && |f.oemId| == 6 && Fits(HeaderLayout, FieldValues(f))
  }

  function FieldValues(f: HeaderFields): seq<nat>
  {
    [LeDecode(f.signature), f.length, f.revision, f.checksum, LeDecode(f.oemId),
     f.oemTableId, f.oemRevision, f.creatorId, f.creatorRevision]
  }

  /** The header firmware stores for the fields `f`. */
  function FromFields(f: HeaderFields): Header
    requires FieldsFit(f)
  {
    HeaderLayoutFacts();
    Header(Encode(HeaderLayout, FieldValues(f)))
  }

  /** Decoding an encoded header gives its fields back. */
  lemma HeaderRoundTrip(f: HeaderFields)
    requires FieldsFit(f)
    ensures Fields(FromFields(f)) == f
  {
    HeaderLayoutFacts();
    var vs := FieldValues(f);
    FieldsOfEncode(HeaderLayout, vs);
    SliceOfEncode(HeaderLayout, vs, 0);
    EncodeDecode(f.signature);
    SliceOfEncode(HeaderLayout, vs, 4);
    EncodeDecode(f.oemId);
  }

  /** The decoded fields of a header are the fields of its layout, the two byte-string fields
      read as numbers. */
  lemma FieldValuesOf(h: Header)
    ensures Size(HeaderLayout) <= |h.raw|
    ensures FieldValues(Fields(h)) == FieldsOf(HeaderLayout, h.raw)
  {
    HeaderLayoutFacts();
    var b := h.raw;
    var fs := FieldsOf(HeaderLayout, b);
    FieldsOfIndex(HeaderLayout, b, 0);
    FieldIsSlice(HeaderLayout, b, 0);
    LeAtPiece(b, 0, 4, b[0..4]);
    FieldsOfIndex(HeaderLayout, b, 4);
    FieldIsSlice(HeaderLayout, b, 4);
    LeAtPiece(b, 10, 6, b[10..16]);
    assert |fs| == 9;
  }

  /** Every header read from memory is the encoding of its own fields: the packed layout has
      no gaps and no overlaps. */
  lemma HeaderBytesRoundTrip(h: Header)
    ensures FieldsFit(Fields(h)) && FromFields(Fields(h)) == h
  {
    HeaderLayoutFacts();
    FieldValuesOf(h);
    EncodeFields(HeaderLayout, h.raw);
    assert h.raw[..HEADER_SIZE] == h.raw;
  }

  // ---------------------------------------------------------------- signatures

  /** `Signature`'s debug text: ASCII bytes are kept, every other byte becomes `?`. */
  function DebugSignature(sig: seq<byte>): (r: seq<byte>)
  {
    seq(|sig|, i requires 0 <= i < |sig| => if sig[i] < 128 then sig[i] else '?' as int as byte)
  }

  /** The debug text has one byte per signature byte, is all ASCII (so the later UTF-8
      conversion cannot fail), keeps every ASCII byte and replaces only non-ASCII ones. */
  lemma DebugSignatureSanitises(sig: seq<byte>)
    ensures |DebugSignature(sig)| == |sig|
    ensures forall i :: 0 <= i < |sig| ==> DebugSignature(sig)[i] < 128
    ensures forall i :: 0 <= i < |sig| ==>
      (sig[i] < 128 <==> DebugSignature(sig)[i] == sig[i])
    ensures forall i :: 0 <= i < |sig| && sig[i] >= 128 ==> DebugSignature(sig)[i] == 63
    ensures DebugSignature(DebugSignature(sig)) == DebugSignature(sig)
  {
  }

  // ---------------------------------------------------------------- table types

  /** The table types that implement `Sdt`: RSDT and XSDT (`RootSdt<u32_le>`,
      `RootSdt<u64_le>`), MADT, RHCT, MCFG and FADT. */
  datatype TableKind = Rsdt | Xsdt | Madt | Rhct | Mcfg | Fadt

  /** `Sdt::SIGNATURE`. */
  function SignatureOf(k: TableKind): (s: seq<byte>)
    ensures |s| == 4
  {
    match k
    case Rsdt => Ascii("RSDT")
    case Xsdt => Ascii("XSDT")
    case Madt => Ascii("APIC")
    case Rhct => Ascii("RHCT")
    case Mcfg => Ascii("MCFG")
    case Fadt => Ascii("FACP")
  }

  /** Distinct table types have distinct signatures, so a signature names one type. */
  lemma SignaturesDistinct(a: TableKind, b: TableKind)
    requires a != b
    ensures SignatureOf(a) != SignatureOf(b)
  {
    var sa, sb := SignatureOf(a), SignatureOf(b);
    assert sa[0] != sb[0] || sa[1] != sb[1];
  }

  /** Every signature is four ASCII capital letters, so its debug text is the signature
      itself. */
  lemma SignaturesPrintable(k: TableKind)
    ensures forall i :: 0 <= i < 4 ==> 'A' as int <= SignatureOf(k)[i] as int <= 'Z' as int
    ensures DebugSignature(SignatureOf(k)) == SignatureOf(k)
  {
  }

  /** Types that end in a dynamically sized array (their pointers carry an element count);
      the FADT is a fixed-size overlay. */
  predicate Unsized(k: TableKind)
  {
    k != Fadt
  }

  /** Field widths of the fixed part before the trailing array (`size_of_unsized`):
      RootSdt = header; Madt = header, local_intc_addr, flags; Rhct = header, flags,
      time_base_frequency, nodes_len, nodes_offset; Mcfg = header, reserved. */
  function PrefixLayout(k: TableKind): seq<nat>
    requires Unsized(k)
  {
    match k
    case Rsdt => [HEADER_SIZE]
    case Xsdt => [HEADER_SIZE]
    case Madt => [HEADER_SIZE, 4, 4]
    case Rhct => [HEADER_SIZE, 4, 8, 4, 4]
    case Mcfg => [HEADER_SIZE, 8]
  }

  /** `size_of_unsized`: the byte size of the fixed part. */
  function PrefixSize(k: TableKind): nat
    requires Unsized(k)
  {
    match k
    case Rsdt => 36
    case Xsdt => 36
    case Madt => 44
    case Rhct => 56
    case Mcfg => 44
  }

  /** Element size of the trailing array: `u32_le`, `u64_le`, `u8`, `u8`, MCFG `Entry`. */
  function Stride(k: TableKind): nat
    requires Unsized(k)
  {
    match k
    case Rsdt => 4
    case Xsdt => 8
    case Madt => 1
    case Rhct => 1
    case Mcfg => 16
  }

  /** The prefix sizes are the packed sizes of the prefix layouts. */
  lemma PrefixSizes(k: TableKind)
    requires Unsized(k)
    ensures PrefixSize(k) == Size(PrefixLayout(k))
  {
    var l := PrefixLayout(k);
    assert Offset(l, 1) == 36;
    if k == Madt || k == Mcfg {
      assert Offset(l, 2) == (if k == Madt then 40 else 44);
    }
    if k == Madt {
      assert Offset(l, 3) == 44;
    }
    if k == Rhct {
      assert Offset(l, 2) == 40;
      assert Offset(l, 3) == 48;
      assert Offset(l, 4) == 52;
      assert Offset(l, 5) == 56;
    }
  }

  /** `header_dynamic_size`: the bytes after the fixed prefix. The subtraction is unchecked in
      the source, so a table shorter than its prefix is outside the contract. */
  function HeaderDynamicSize(k: TableKind, length: nat): (r: nat)
    requires Unsized(k) && PrefixSize(k) <= length
    ensures PrefixSize(k) + r == length
  {
    length - PrefixSize(k)
  }

  /** `from_header_ptr_slice_of`: the trailing element count, rounded down. */
  function SliceCount(k: TableKind, length: nat): (r: nat)
    requires Unsized(k) && PrefixSize(k) <= length
    ensures PrefixSize(k) + r * Stride(k) <= length < PrefixSize(k) + (r + 1) * Stride(k)
  {
    HeaderDynamicSize(k, length) / Stride(k)
  }

  /** What a handle points at: a bare header, or a whole table with the element count its
      pointer metadata carries (0 for the fixed-size FADT). */
  datatype View = HeaderView | TableView(kind: TableKind, count: nat)

  /** The view of a whole table of type `k` and byte length `length`: unsized tables carry
      the count of whole trailing elements, the FADT none. */
  function ViewFor(k: TableKind, length: nat): (v: View)
    requires Unsized(k) ==> PrefixSize(k) <= length
    ensures v.TableView? && v.kind == k
    ensures Unsized(k) ==> PrefixSize(k) + v.count * Stride(k) <= length
    ensures !Unsized(k) ==> v.count == 0
  {
    if Unsized(k) then TableView(k, SliceCount(k, length)) else TableView(k, 0)
  }

  /** `Sdt::from_header_ptr`: the view of a whole table built from its header. Its safety
      contract demands a matching signature; the sizing subtraction needs the prefix. */
  function FromHeader(k: TableKind, h: Header): (v: View)
    requires h.Signature() == SignatureOf(k)
    requires Unsized(k) ==> PrefixSize(k) <= h.Length()
  {
    ViewFor(k, h.Length())
  }

  // ---------------------------------------------------------------- RSDP and root arrays

  /** Field widths of the `#[repr(C)]` RSDP: signature, checksum, oem_id, revision,
      rsdt_addr, length, xsdt_addr, x_checksum, reserved. Every field is naturally aligned
      at its packed offset, so the C layout has no padding before `reserved`. */
  const RsdpLayout: seq<nat> := [8, 1, 6, 1, 4, 4, 8, 1, 3]

  lemma RsdpLayoutFacts()
    ensures Offset(RsdpLayout, 3) == 15 && Offset(RsdpLayout, 4) == 16
    ensures Offset(RsdpLayout, 6) == 24 && Offset(RsdpLayout, 7) == 32
  {
    assert Offset(RsdpLayout, 1) == 8;
    assert Offset(RsdpLayout, 2) == 9;
    assert Offset(RsdpLayout, 3) == 15;
    assert Offset(RsdpLayout, 4) == 16;
    assert Offset(RsdpLayout, 5) == 20;
    assert Offset(RsdpLayout, 6) == 24;
    assert Offset(RsdpLayout, 7) == 32;
    assert Offset(RsdpLayout, 8) == 33;
    assert Offset(RsdpLayout, 9) == 36;
  }

  /** The RSDP bytes the locator reads: up to `rsdt_addr` always, up to `xsdt_addr` when the
      revision is 2 or more. */
  predicate RsdpReadable(rsdp: seq<byte>)
  {
    |rsdp| >= 20 && (rsdp[15] >= 2 ==> |rsdp| >= 32)
  }

  function RsdpRevision(rsdp: seq<byte>): byte
    requires RsdpReadable(rsdp)
  {
    rsdp[15]
  }

  /** Revision 0 and 1 name a 32-bit RSDT; revision 2 and later a 64-bit XSDT. */
  function RootKindFor(revision: byte): (k: TableKind)
    ensures k == Rsdt || k == Xsdt
    ensures Stride(k) == (if revision < 2 then 4 else 8)
  {
    if revision < 2 then Rsdt else Xsdt
  }

  /** The physical address of the root table the RSDP names. */
  function RootAddress(rsdp: seq<byte>): (p: nat)
    requires RsdpReadable(rsdp)
    ensures rsdp[15] < 2 ==> p < Pow256(4)
  {
    RsdpLayoutFacts();
    if rsdp[15] < 2 then LeAt(rsdp, 16, 4) else LeAt(rsdp, 24, 8)
  }

  predicate IsRoot(k: TableKind)
  {
    k == Rsdt || k == Xsdt
  }

  /** Entry `i` of a root pointer array: the little-endian physical address stored in the
      `i`-th 4- or 8-byte slot after the header. */
  function RootEntry(k: TableKind, table: seq<byte>, i: nat): nat
    requires IsRoot(k) && HEADER_SIZE + (i + 1) * Stride(k) <= |table|
  {
    LeAt(table, HEADER_SIZE + i * Stride(k), Stride(k))
  }

  // ---------------------------------------------------------------- signature filter

  /** How many of `sigs` equal `sig`. */
  function CountMatches(sigs: seq<seq<byte>>, sig: seq<byte>): nat
  {
    if sigs == [] then 0
    else (if sigs[0] == sig then 1 else 0) + CountMatches(sigs[1..], sig)
  }

  /** `filter(|h| h.signature == sig).nth(n)` over the tables' signatures: the position of the
      `n`-th (0-based) table whose signature equals `sig`, if there are more than `n`. */
  function NthMatch(sigs: seq<seq<byte>>, sig: seq<byte>, n: nat): (r: Option<nat>)
    ensures r.Some? ==> r.value < |sigs| && sigs[r.value] == sig
                        && CountMatches(sigs[..r.value], sig) == n
    ensures r.None? <==> CountMatches(sigs, sig) <= n
  {
    if sigs == [] then None
    else if sigs[0] == sig && n == 0 then
      assert sigs[..0] == [];
      Some(0)
    else
      var rest := NthMatch(sigs[1..], sig, if sigs[0] == sig then n - 1 else n);
      if rest.None? then None
      else
        assert sigs[..rest.value + 1][1..] == sigs[1..][..rest.value];
        Some(rest.value + 1)
  }

  lemma {:induction false} CountPrefixMonotone(sigs: seq<seq<byte>>, sig: seq<byte>, i: nat, j: nat)
    requires i <= j <= |sigs|
    ensures CountMatches(sigs[..i], sig) <= CountMatches(sigs[..j], sig)
  {
    if i > 0 {
      assert sigs[..i][1..] == sigs[1..][..i - 1];
      assert sigs[..j][1..] == sigs[1..][..j - 1];
      CountPrefixMonotone(sigs[1..], sig, i - 1, j - 1);
    }
  }

  lemma {:induction false} CountPrefixStep(sigs: seq<seq<byte>>, sig: seq<byte>, i: nat)
    requires i < |sigs|
    ensures CountMatches(sigs[..i + 1], sig)
            == CountMatches(sigs[..i], sig) + (if sigs[i] == sig then 1 else 0)
  {
    if i > 0 {
      assert sigs[..i + 1][1..] == sigs[1..][..i];
      assert sigs[..i][1..] == sigs[1..][..i - 1];
      CountPrefixStep(sigs[1..], sig, i - 1);
    } else {
      assert sigs[..1][1..] == [];
    }
  }

  /** Tables that do not match add nothing to the count. */
  lemma {:induction false} CountSkip(sigs: seq<seq<byte>>, sig: seq<byte>, i: nat, j: nat)
    requires i <= j <= |sigs|
    requires forall t :: i <= t < j ==> sigs[t] != sig
    ensures CountMatches(sigs[..j], sig) == CountMatches(sigs[..i], sig)
    decreases j - i
  {
    if i < j {
      CountPrefixStep(sigs, sig, j - 1);
      CountSkip(sigs, sig, i, j - 1);
    }
  }

  /** The converse of NthMatch's contract: a matching table with exactly `n` matches before
      it is the one `nth(n)` returns. */
  lemma NthMatchComplete(sigs: seq<seq<byte>>, sig: seq<byte>, n: nat, i: nat)
    requires i < |sigs| && sigs[i] == sig && CountMatches(sigs[..i], sig) == n
    ensures NthMatch(sigs, sig, n) == Some(i)
  {
    CountPrefixStep(sigs, sig, i);
    CountPrefixMonotone(sigs, sig, i + 1, |sigs|);
    assert sigs[..|sigs|] == sigs;
    var r := NthMatch(sigs, sig, n);
    var j := r.value;
    CountPrefixStep(sigs, sig, j);
    if j < i {
      CountPrefixMonotone(sigs, sig, j + 1, i);
    } else if i < j {
      CountPrefixMonotone(sigs, sig, i + 1, j);
    }
  }

  /** Matches come out in root-array order: the `n+1`-th match lies after the `n`-th. */
  lemma NthMatchOrdered(sigs: seq<seq<byte>>, sig: seq<byte>, n: nat)
    requires NthMatch(sigs, sig, n + 1).Some?
    ensures NthMatch(sigs, sig, n).Some?
    ensures NthMatch(sigs, sig, n).value < NthMatch(sigs, sig, n + 1).value
  {
    var j := NthMatch(sigs, sig, n + 1).value;
    var i := NthMatch(sigs, sig, n).value;
    CountPrefixStep(sigs, sig, i);
    if j <= i {
      CountPrefixMonotone(sigs, sig, j, i);
    }
  }
}
