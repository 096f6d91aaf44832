/** `src/sdt/fadt.rs`: the Fixed ACPI Description Table (signature `FACP`, section 5.2.9 of the
    ACPI specification 6.5). The table is a fixed-size packed structure: `from_header_ptr` is a
    plain cast, so the whole structure is read over the mapping. */
module FadtFields {
  import opened Bytes
  import opened Layout
  import opened Sdt

  /** Field widths, in declaration order, of `firmware_ctrl` to `pm1b_cnt_blk`. */
  const FadtBodyA: seq<nat> := [4, 4, 1, 1, 2, 4, 1, 1, 1, 1, 4, 4, 4, 4]

  /** Field widths, in declaration order, of `pm2_cnt_blk` to `p_lvl3_lat`. */
  const FadtBodyB: seq<nat> := [4, 4, 4, 4, 1, 1, 1, 1, 1, 1, 1, 1, 2, 2]

  /** Field widths, in declaration order, of `flush_size` to `fadt_minor_version`. */
  const FadtBodyC: seq<nat> := [2, 2, 1, 1, 1, 1, 1, 2, 1, 4, 12, 1, 2, 1]

  /** Field widths, in declaration order, of `x_firmware_ctrl` to `hypervisor_vendor_identity`. */
  const FadtBodyD: seq<nat> := [8, 8, 12, 12, 12, 12, 12, 12, 12, 12, 12, 12, 8]

  /** Field widths of everything after the 36-byte header. */
  const FadtBody: seq<nat> := FadtBodyA + FadtBodyB + FadtBodyC + FadtBodyD

  /** The whole structure: the header as one 36-byte field, then the body. */
  const FadtLayout: seq<nat> := [HEADER_SIZE] + FadtBody

  const FADT_SIZE: nat := 276

  /** Field indices in `FadtBody`. */
  const DSDT: nat := 1
  const FLAGS: nat := 37
  const X_DSDT: nat := 43

  lemma ChunkFacts()
    ensures |FadtBodyA| == 14 && |FadtBodyB| == 14 && |FadtBodyC| == 14 && |FadtBodyD| == 13
    ensures Offset(FadtBodyA, 1) == 4 && Size(FadtBodyA) == 36 && Size(FadtBodyB) == 28
    ensures Offset(FadtBodyC, 9) == 12 && Size(FadtBodyC) == 32
    ensures Offset(FadtBodyD, 1) == 8 && Size(FadtBodyD) == 144
    ensures FadtBodyA[1] == 4 && FadtBodyC[9] == 4 && FadtBodyD[1] == 8
  {
    var a := FadtBodyA;
    assert Offset(a, 1) == 4;
    assert Offset(a, 2) == 8;
    assert Offset(a, 3) == 9;
    assert Offset(a, 4) == 10;
    assert Offset(a, 5) == 12;
    assert Offset(a, 6) == 16;
    assert Offset(a, 7) == 17;
    assert Offset(a, 8) == 18;
    assert Offset(a, 9) == 19;
    assert Offset(a, 10) == 20;
    assert Offset(a, 11) == 24;
    assert Offset(a, 12) == 28;
    assert Offset(a, 13) == 32;
    assert Offset(a, 14) == 36;
    var b := FadtBodyB;
    assert Offset(b, 1) == 4;
    assert Offset(b, 2) == 8;
    assert Offset(b, 3) == 12;
    assert Offset(b, 4) == 16;
    assert Offset(b, 5) == 17;
    assert Offset(b, 6) == 18;
    assert Offset(b, 7) == 19;
    assert Offset(b, 8) == 20;
    assert Offset(b, 9) == 21;
    assert Offset(b, 10) == 22;
    assert Offset(b, 11) == 23;
    assert Offset(b, 12) == 24;
    assert Offset(b, 13) == 26;
    assert Offset(b, 14) == 28;
    var c := FadtBodyC;
    assert Offset(c, 1) == 2;
    assert Offset(c, 2) == 4;
    assert Offset(c, 3) == 5;
    assert Offset(c, 4) == 6;
    assert Offset(c, 5) == 7;
    assert Offset(c, 6) == 8;
    assert Offset(c, 7) == 9;
    assert Offset(c, 8) == 11;
    assert Offset(c, 9) == 12;
    assert Offset(c, 10) == 16;
    assert Offset(c, 11) == 28;
    assert Offset(c, 12) == 29;
    assert Offset(c, 13) == 31;
    assert Offset(c, 14) == 32;
    var d := FadtBodyD;
    assert Offset(d, 1) == 8;
    assert Offset(d, 2) == 16;
    assert Offset(d, 3) == 28;
    assert Offset(d, 4) == 40;
    assert Offset(d, 5) == 52;
    assert Offset(d, 6) == 64;
    assert Offset(d, 7) == 76;
    assert Offset(d, 8) == 88;
    assert Offset(d, 9) == 100;
    assert Offset(d, 10) == 112;
    assert Offset(d, 11) == 124;
    assert Offset(d, 12) == 136;
    assert Offset(d, 13) == 144;
  }

  lemma FadtBodySize()
    ensures |FadtBody| == 55 && Size(FadtBody) == FADT_SIZE - HEADER_SIZE
  {
    ChunkFacts();
    var abc := FadtBodyA + FadtBodyB + FadtBodyC;
    OffsetAppend(FadtBodyA, FadtBodyB, 14);
    OffsetAppend(FadtBodyA + FadtBodyB, FadtBodyC, 14);
    OffsetAppend(abc, FadtBodyD, 13);
  }

  lemma FadtBodyFacts()
    ensures |FadtBody| == 55 && Size(FadtBody) == FADT_SIZE - HEADER_SIZE
    ensures Offset(FadtBody, DSDT) == 4 && FadtBody[DSDT] == 4
    ensures Offset(FadtBody, FLAGS) == 76 && FadtBody[FLAGS] == 4
    ensures Offset(FadtBody, X_DSDT) == 104 && FadtBody[X_DSDT] == 8
  {
    FadtBodySize();
    ChunkFacts();
    var ab := FadtBodyA + FadtBodyB;
    var abc := ab + FadtBodyC;
    var bcd := FadtBodyB + FadtBodyC + FadtBodyD;
    assert FadtBody == FadtBodyA + bcd;
    OffsetPrefix(FadtBodyA, bcd, 1);
    assert FadtBody[1] == FadtBodyA[1];
    OffsetAppend(FadtBodyA, FadtBodyB, 14);
    OffsetAppend(ab, FadtBodyC, 9);
    OffsetPrefix(abc, FadtBodyD, 37);
    assert FadtBody[37] == FadtBodyC[9];
    OffsetAppend(ab, FadtBodyC, 14);
    OffsetAppend(abc, FadtBodyD, 1);
    assert FadtBody[43] == FadtBodyD[1];
  }

  /** `size_of::<Fadt>()` is 276, and `dsdt`, `flags` and `x_dsdt` sit at table offsets 40,
      112 and 140. */
  lemma FadtLayoutFacts()
    ensures Size(FadtLayout) == FADT_SIZE
    ensures Offset(FadtLayout, 1 + DSDT) == 40
    ensures Offset(FadtLayout, 1 + FLAGS) == 112
    ensures Offset(FadtLayout, 1 + X_DSDT) == 140
  {
    FadtBodyFacts();
    OffsetTail(FadtLayout, |FadtLayout|);
    OffsetTail(FadtLayout, 1 + DSDT);
    OffsetTail(FadtLayout, 1 + FLAGS);
    OffsetTail(FadtLayout, 1 + X_DSDT);
    assert FadtLayout[1..] == FadtBody;
  }

  /** `Fadt::from_header_ptr` is a plain cast: every FADT gets the same view, with no element
      count, whatever its header's `length` says. */
  lemma FadtIsSized(h1: Header, h2: Header)
    requires h1.Signature() == SignatureOf(Fadt) && h2.Signature() == SignatureOf(Fadt)
    ensures FromHeader(Fadt, h1) == FromHeader(Fadt, h2) == TableView(Fadt, 0)
  {
  }

  /** `Fadt::flags`: the 32-bit `flags` field, every bit retained (`from_bits_retain`). */
  function Flags(table: seq<byte>): (r: nat)
    requires |table| >= FADT_SIZE
    ensures r < Pow256(4)
    ensures r == LeAt(table, 112, 4)
  {
    FadtLayoutFacts();
    FadtBodyFacts();
    Field(FadtLayout, table, 1 + FLAGS)
  }

  /** `Fadt::dsdt`: from revision 2 on the 64-bit `x_dsdt` at offset 140, before that the
      32-bit `dsdt` at offset 40 widened to 64 bits. */
  function Dsdt(table: seq<byte>): (r: nat)
    requires |table| >= FADT_SIZE
    ensures r < Pow256(8)
    ensures table[8] as nat >= 2 ==> r == LeAt(table, 140, 8)
    ensures table[8] as nat < 2 ==> r == LeAt(table, 40, 4) && r < Pow256(4)
  {
    FadtLayoutFacts();
    FadtBodyFacts();
    if table[8] as nat >= 2 then Field(FadtLayout, table, 1 + X_DSDT)
    else
      assert Pow256(8) == Pow256(4) * Pow256(4);
      Field(FadtLayout, table, 1 + DSDT)
  }

  /** A FADT image: a header followed by a body whose fields hold `body`. */
  function FadtImage(header: Header, body: seq<nat>): (t: seq<byte>)
    requires Fits(FadtBody, body)
    ensures |t| == FADT_SIZE
  {
    FadtBodySize();
    header.raw + Encode(FadtBody, body)
  }

  /** Reading a stored field back out of a FADT image. */
  lemma BodyFieldOfImage(header: Header, body: seq<nat>, k: nat)
    requires Fits(FadtBody, body) && k < |FadtBody|
    ensures HEADER_SIZE + Offset(FadtBody, k) + FadtBody[k] <= FADT_SIZE
    ensures LeAt(FadtImage(header, body), HEADER_SIZE + Offset(FadtBody, k), FadtBody[k]) == body[k]
  {
    FadtBodySize();
    var e := Encode(FadtBody, body);
    FieldOfEncode(FadtBody, body, k);
    FieldIsSlice(FadtBody, e, k);
    LeAtAfter(header.raw, e, Offset(FadtBody, k), FadtBody[k]);
  }

  /** `dsdt()` returns the DSDT address firmware stored in the field the header's revision
      selects, and `flags()` the stored flags. */
  lemma DsdtOfImage(header: Header, body: seq<nat>)
    requires Fits(FadtBody, body)
    ensures header.Revision() >= 2 ==> Dsdt(FadtImage(header, body)) == body[X_DSDT]
    ensures header.Revision() < 2 ==> Dsdt(FadtImage(header, body)) == body[DSDT]
    ensures Flags(FadtImage(header, body)) == body[FLAGS]
  {
    FadtBodyFacts();
    var t := FadtImage(header, body);
    assert t[8] == header.raw[8];
    BodyFieldOfImage(header, body, DSDT);
    BodyFieldOfImage(header, body, X_DSDT);
    BodyFieldOfImage(header, body, FLAGS);
  }
}
