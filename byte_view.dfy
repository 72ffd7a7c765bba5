/**
 * `Uint8Array` copying: `set` at an offset, and `concatUint8`, which lays arrays end to end
 * in a buffer of their total length.
 */
module ByteView {
  import opened Bytes

  /** `view.set(bytes, p)`: copies `bytes` into the buffer starting at `p`. */
  method SetBytes(view: array<Byte>, p: nat, bytes: seq<Byte>)
    requires p + |bytes| <= view.Length
    modifies view
    ensures view[..p + |bytes|] == old(view[..p]) + bytes
    ensures view[p + |bytes|..] == old(view[p + |bytes|..])
  {
    var i := 0;
    while i < |bytes|
      invariant 0 <= i <= |bytes|
      invariant view[..p + i] == old(view[..p]) + bytes[..i]
      invariant view[p + i..] == old(view[p + i..])
    {
      view[p + i] := bytes[i];
      assert bytes[..i + 1] == bytes[..i] + [bytes[i]];
      i := i + 1;
    }
    assert bytes[..i] == bytes;
  }

  /**
   * `concatUint8(arrays)`: a first pass sums the lengths, a second copies each array at the
   * running offset. The result holds the arrays one after another.
   */
  method Concat(arrays: seq<seq<Byte>>) returns (out: array<Byte>)
    ensures out.Length == TotalLength(arrays)
    ensures out[..] == Flatten(arrays)
  {
    var len := 0;
    var i := 0;
    while i < |arrays|
      invariant 0 <= i <= |arrays|
      invariant len == |Flatten(arrays[..i])|
    {
      FlattenSnoc(arrays, i);
      len := len + |arrays[i]|;
      i := i + 1;
    }
    assert arrays[..i] == arrays;
    out := new Byte[len];
    var off := 0;
    i := 0;
    while i < |arrays|
      invariant 0 <= i <= |arrays|
      invariant off == |Flatten(arrays[..i])| <= out.Length
      invariant out[..off] == Flatten(arrays[..i])
    {
      FlattenSnoc(arrays, i);
      FlattenPart(arrays, i);
      SetBytes(out, off, arrays[i]);
      off := off + |arrays[i]|;
      i := i + 1;
    }
    assert arrays[..i] == arrays;
    assert out[..] == out[..off];
    FlattenLength(arrays);
  }
}
