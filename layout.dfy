/** Packed (`#[repr(C, packed)]`) structures. A structure is described by the byte widths of its
    fields in declaration order; fields follow each other with no padding, and every integer
    field is little-endian. Each table and record shape of the model is one such width list. */
module Layout {
  import opened Bytes

  /** Byte offset of field `k`: the total width of the fields declared before it. */
  function Offset(widths: seq<nat>, k: nat): nat
    requires k <= |widths|
  {
    if k == 0 then 0 else Offset(widths, k - 1) + widths[k - 1]
  }

  /** `size_of` of a packed structure: the total width of all its fields. */
  function Size(widths: seq<nat>): nat
  {
    Offset(widths, |widths|)
  }

  /** Offsets only grow: every field lies inside the structure. */
  lemma {:induction false} OffsetBounds(widths: seq<nat>, k: nat)
    requires k < |widths|
    ensures Offset(widths, k) + widths[k] <= Size(widths)
    decreases |widths| - k
  {
    if k + 1 < |widths| {
      OffsetBounds(widths, k + 1);
    }
  }

  /** Offsets seen from the second field on: dropping the first field shifts every later
      offset down by its width. */
  lemma {:induction false} OffsetTail(widths: seq<nat>, k: nat)
    requires 0 < k <= |widths|
    ensures Offset(widths, k) == widths[0] + Offset(widths[1..], k - 1)
  {
    if k > 1 {
      OffsetTail(widths, k - 1);
    }
  }

  /** Reads field `k` of a structure overlaid on `bytes` (the structure must fit). */
  function Field(widths: seq<nat>, bytes: seq<byte>, k: nat): nat
    requires k < |widths| && Size(widths) <= |bytes|
  {
    OffsetBounds(widths, k);
    LeAt(bytes, Offset(widths, k), widths[k])
  }

  /** `values` can be stored in fields of the given widths. */
  predicate Fits(widths: seq<nat>, values: seq<nat>)
  {
    |values| == |widths| && forall k :: 0 <= k < |widths| ==> values[k] < Pow256(widths[k])
  }

  /** The packed byte image of a structure whose fields hold `values`. */
  function Encode(widths: seq<nat>, values: seq<nat>): (r: seq<byte>)
    requires Fits(widths, values)
    ensures |r| == Size(widths)
  {
    if widths == [] then []
    else
      assert Fits(widths[1..], values[1..]) by {
        forall j | 0 <= j < |widths| - 1 ensures values[1..][j] < Pow256(widths[1..][j]) {
          assert values[1..][j] == values[j + 1];
        }
      }
      OffsetTail(widths, |widths|);
      LeEncode(values[0], widths[0]) + Encode(widths[1..], values[1..])
  }

  /** In the image of an encoded structure, field `k` occupies exactly its own bytes. */
  lemma {:induction false} SliceOfEncode(widths: seq<nat>, values: seq<nat>, k: nat)
    requires Fits(widths, values) && k < |widths|
    ensures Offset(widths, k) + widths[k] <= |Encode(widths, values)|
    ensures Encode(widths, values)[Offset(widths, k)..Offset(widths, k) + widths[k]]
              == LeEncode(values[k], widths[k])
  {
    OffsetBounds(widths, k);
    EncodeCons(widths, values);
    var e := Encode(widths, values);
    var head := LeEncode(values[0], widths[0]);
    var tail := Encode(widths[1..], values[1..]);
    if k == 0 {
      assert e[0..widths[0]] == head;
    } else {
      OffsetTail(widths, k);
      OffsetBounds(widths[1..], k - 1);
      var o := Offset(widths[1..], k - 1);
      SliceOfEncode(widths[1..], values[1..], k - 1);
      assert e[widths[0] + o..widths[0] + o + widths[k]] == tail[o..o + widths[k]];
    }
  }

  /** Decoding a field of an encoded structure gives back the value stored in it. */
  lemma FieldOfEncode(widths: seq<nat>, values: seq<nat>, k: nat)
    requires Fits(widths, values) && k < |widths|
    ensures Field(widths, Encode(widths, values), k) == values[k]
  {
    var e := Encode(widths, values);
    SliceOfEncode(widths, values, k);
    DecodeEncode(values[k], widths[k]);
    FieldIsSlice(widths, e, k);
    LeAtPiece(e, Offset(widths, k), widths[k], LeEncode(values[k], widths[k]));
  }

  /** A field's value is the little-endian number at its offset. */
  lemma FieldIsSlice(widths: seq<nat>, bytes: seq<byte>, k: nat)
    requires k < |widths| && Size(widths) <= |bytes|
    ensures Offset(widths, k) + widths[k] <= |bytes|
    ensures Field(widths, bytes, k) == LeAt(bytes, Offset(widths, k), widths[k])
  {
    OffsetBounds(widths, k);
  }

  /** Field `k + 1` of a structure is field `k` of the structure that starts after its first
      field. */
  lemma FieldShift(widths: seq<nat>, bytes: seq<byte>, k: nat)
    requires k + 1 < |widths| && Size(widths) <= |bytes|
    ensures widths[0] + Size(widths[1..]) == Size(widths)
    ensures Field(widths, bytes, k + 1) == Field(widths[1..], bytes[widths[0]..], k)
  {
    var w0 := widths[0];
    var tail := widths[1..];
    OffsetTail(widths, |widths|);
    OffsetTail(widths, k + 1);
    OffsetBounds(tail, k);
    var rest := bytes[w0..];
    var o := Offset(tail, k);
    var piece := rest[o..o + tail[k]];
    assert bytes[w0 + o..w0 + o + tail[k]] == piece;
    FieldIsSlice(widths, bytes, k + 1);
    FieldIsSlice(tail, rest, k);
    LeAtPiece(bytes, w0 + o, tail[k], piece);
    LeAtPiece(rest, o, tail[k], piece);
  }

  /** All fields of a structure overlaid on `bytes`, in declaration order. */
  function FieldsOf(widths: seq<nat>, bytes: seq<byte>): (r: seq<nat>)
    requires Size(widths) <= |bytes|
    ensures Fits(widths, r)
    decreases |widths|
  {
    if widths == [] then []
    else
      OffsetTail(widths, |widths|);
      var rest := FieldsOf(widths[1..], bytes[widths[0]..]);
      var r := [LeAt(bytes, 0, widths[0])] + rest;
      assert forall k :: 0 < k < |widths| ==> r[k] == rest[k - 1] && widths[k] == widths[1..][k - 1];
      r
  }

  /** Entry `k` of `FieldsOf` is field `k`. */
  lemma {:induction false} FieldsOfIndex(widths: seq<nat>, bytes: seq<byte>, k: nat)
    requires k < |widths| && Size(widths) <= |bytes|
    ensures FieldsOf(widths, bytes)[k] == Field(widths, bytes, k)
  {
    OffsetTail(widths, |widths|);
    if k == 0 {
      FieldIsSlice(widths, bytes, 0);
    } else {
      FieldsOfIndex(widths[1..], bytes[widths[0]..], k - 1);
      FieldShift(widths, bytes, k - 1);
    }
  }

  /** The image of a structure is its first field's bytes followed by the image of the rest. */
  lemma EncodeCons(widths: seq<nat>, values: seq<nat>)
    requires Fits(widths, values) && widths != []
    ensures Fits(widths[1..], values[1..])
    ensures Encode(widths, values) == LeEncode(values[0], widths[0]) + Encode(widths[1..], values[1..])
  {
    assert Fits(widths[1..], values[1..]) by {
      forall j | 0 <= j < |widths| - 1 ensures values[1..][j] < Pow256(widths[1..][j]) {
        assert values[1..][j] == values[j + 1];
      }
    }
  }

  /** The first field is read from the first bytes, the rest from the bytes after it. */
  lemma FieldsOfCons(widths: seq<nat>, bytes: seq<byte>)
    requires Size(widths) <= |bytes| && widths != []
    ensures widths[0] + Size(widths[1..]) == Size(widths)
    ensures FieldsOf(widths, bytes)[0] == LeAt(bytes, 0, widths[0])
    ensures FieldsOf(widths, bytes)[1..] == FieldsOf(widths[1..], bytes[widths[0]..])
  {
    OffsetTail(widths, |widths|);
  }

  /** Reading back every field of an encoded structure gives the values stored. */
  lemma {:induction false} FieldsOfEncode(widths: seq<nat>, values: seq<nat>)
    requires Fits(widths, values)
    ensures Size(widths) <= |Encode(widths, values)|
    ensures FieldsOf(widths, Encode(widths, values)) == values
  {
    if widths != [] {
      var e := Encode(widths, values);
      EncodeCons(widths, values);
      FieldsOfCons(widths, e);
      var head := LeEncode(values[0], widths[0]);
      var later := Encode(widths[1..], values[1..]);
      assert e[0..widths[0]] == head && e[widths[0]..] == later;
      LeAtPiece(e, 0, widths[0], head);
      DecodeEncode(values[0], widths[0]);
      FieldsOfEncode(widths[1..], values[1..]);
      assert values == [values[0]] + values[1..];
    }
  }

  /** Bytes `0..w` followed by the `n` bytes after them are the first `w + n` bytes. */
  lemma Join(e: seq<byte>, first: seq<byte>, later: seq<byte>, bytes: seq<byte>, w: nat, n: nat)
    requires w + n <= |bytes| && e == first + later
    requires first == bytes[0..w] && later == bytes[w..][..n]
    ensures e == bytes[..w + n]
  {
  }

  /** Re-encoding the fields read from memory reproduces the structure's bytes exactly: the
      packed fields cover the structure with no gap and no overlap. */
  lemma {:induction false} EncodeFields(widths: seq<nat>, bytes: seq<byte>)
    requires Size(widths) <= |bytes|
    ensures Encode(widths, FieldsOf(widths, bytes)) == bytes[..Size(widths)]
  {
    if widths != [] {
      var w0 := widths[0];
      var tail := widths[1..];
      FieldsOfCons(widths, bytes);
      var head := bytes[0..w0];
      var rest := bytes[w0..];
      var vs := FieldsOf(widths, bytes);
      EncodeCons(widths, vs);
      LeAtPiece(bytes, 0, w0, head);
      EncodeDecode(head);
      assert LeEncode(vs[0], w0) == head;
      EncodeFields(tail, rest);
      Join(Encode(widths, vs), LeEncode(vs[0], w0), Encode(tail, vs[1..]), bytes, w0, Size(tail));
    }
  }

  /** Fields declared before the end of `a` keep their offsets when more fields follow. */
  lemma {:induction false} OffsetPrefix(a: seq<nat>, b: seq<nat>, j: nat)
    requires j <= |a|
    ensures Offset(a + b, j) == Offset(a, j)
  {
    if j > 0 {
      OffsetPrefix(a, b, j - 1);
      assert (a + b)[j - 1] == a[j - 1];
    }
  }

  /** A field of `b` placed after all of `a` is shifted by `a`'s size. */
  lemma {:induction false} OffsetAppend(a: seq<nat>, b: seq<nat>, k: nat)
    requires k <= |b|
    ensures Offset(a + b, |a| + k) == Size(a) + Offset(b, k)
  {
    if k == 0 {
      OffsetPrefix(a, b, |a|);
    } else {
      OffsetAppend(a, b, k - 1);
      assert (a + b)[|a| + k - 1] == b[k - 1];
    }
  }
}
