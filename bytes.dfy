/** Bytes, little-endian fields as a DataView writes them, and concatenation of byte parts. */
module Bytes {

  type Byte = b: int | 0 <= b < 256

  const TwoTo16: int := 0x1_0000
  const TwoTo32: int := 0x1_0000_0000

  /** The two bytes `DataView.setUint16(p, v, true)` stores: v is first reduced mod 2^16. */
  function LE16(v: int): (r: seq<Byte>)
    ensures |r| == 2
  {
    var w := v % TwoTo16;
    [w % 256, w / 256]
  }

  /** The four bytes `DataView.setUint32(p, v, true)` stores: v is first reduced mod 2^32. */
  function LE32(v: int): (r: seq<Byte>)
    ensures |r| == 4
  {
    var w := v % TwoTo32;
    [w % 256, (w / 256) % 256, (w / 0x1_0000) % 256, w / 0x100_0000]
  }

  /** Reads an unsigned little-endian 16-bit field at offset `at`. */
  function ReadLE16(s: seq<Byte>, at: nat): (v: nat)
    requires at + 2 <= |s|
    ensures v < TwoTo16
  {
    s[at] as int + 256 * (s[at + 1] as int)
  }

  /** Reads an unsigned little-endian 32-bit field at offset `at`. */
  function ReadLE32(s: seq<Byte>, at: nat): (v: nat)
    requires at + 4 <= |s|
    ensures v < TwoTo32
  {
    s[at] as int + 256 * (s[at + 1] as int) + 0x1_0000 * (s[at + 2] as int) + 0x100_0000 * (s[at + 3] as int)
  }

  lemma LE16RoundTrip(v: int)
    ensures ReadLE16(LE16(v), 0) == v % TwoTo16
  {
    var w := v % TwoTo16;
    assert w == (w % 256) + 256 * (w / 256);
  }

  lemma LE32RoundTrip(v: int)
    ensures ReadLE32(LE32(v), 0) == v % TwoTo32
  {
    var w := v % TwoTo32;
    var b0, q0 := w % 256, w / 256;
    var b1, q1 := q0 % 256, q0 / 256;
    var b2, b3 := q1 % 256, q1 / 256;
    assert w == b0 + 256 * q0;
    assert q0 == b1 + 256 * q1;
    assert q1 == b2 + 256 * b3;
    assert w / 0x1_0000 == q1;
    assert w / 0x100_0000 == b3;
  }

  /** A field decoded from inside a longer sequence reads the same as from its own bytes. */
  lemma ReadLE16Slice(s: seq<Byte>, at: nat)
    requires at + 2 <= |s|
    ensures ReadLE16(s, at) == ReadLE16(s[at..at + 2], 0)
  {
  }

  lemma ReadLE32Slice(s: seq<Byte>, at: nat)
    requires at + 4 <= |s|
    ensures ReadLE32(s, at) == ReadLE32(s[at..at + 4], 0)
  {
  }

  /** The field written at `at` reads back as the value reduced mod 2^16. */
  lemma ReadLE16At(s: seq<Byte>, at: nat, v: int)
    requires at + 2 <= |s| && s[at] == LE16(v)[0] && s[at + 1] == LE16(v)[1]
    ensures ReadLE16(s, at) == v % TwoTo16
  {
    LE16RoundTrip(v);
  }

  lemma ReadLE32At(s: seq<Byte>, at: nat, v: int)
    requires at + 4 <= |s|
    requires s[at] == LE32(v)[0] && s[at + 1] == LE32(v)[1] && s[at + 2] == LE32(v)[2] && s[at + 3] == LE32(v)[3]
    ensures ReadLE32(s, at) == v % TwoTo32
  {
    LE32RoundTrip(v);
  }

  /** The byte sequence of parts laid end to end, as a Blob built from them. */
  function Flatten(parts: seq<seq<Byte>>): (r: seq<Byte>)
  {
    if parts == [] then [] else Flatten(parts[..|parts| - 1]) + parts[|parts| - 1]
  }

  /** The sum of the lengths of the parts. */
  function TotalLength(parts: seq<seq<Byte>>): nat
  {
    if parts == [] then 0 else TotalLength(parts[..|parts| - 1]) + |parts[|parts| - 1]|
  }

  lemma {:induction false} FlattenLength(parts: seq<seq<Byte>>)
    ensures |Flatten(parts)| == TotalLength(parts)
  {
    if parts != [] {
      FlattenLength(parts[..|parts| - 1]);
    }
  }

  lemma {:induction false} FlattenAppend(a: seq<seq<Byte>>, b: seq<seq<Byte>>)
    ensures Flatten(a + b) == Flatten(a) + Flatten(b)
  {
    if b == [] {
      assert a + b == a;
    } else {
      var b' := b[..|b| - 1];
      assert (a + b)[..|a + b| - 1] == a + b';
      FlattenAppend(a, b');
    }
  }

  /** Part k of the parts starts in the flattened sequence at the total length of the parts before it. */
  lemma FlattenPart(parts: seq<seq<Byte>>, k: nat)
    requires k < |parts|
    ensures |Flatten(parts[..k])| + |parts[k]| <= |Flatten(parts)|
    ensures Flatten(parts)[|Flatten(parts[..k])|..|Flatten(parts[..k])| + |parts[k]|] == parts[k]
  {
    assert parts == parts[..k] + [parts[k]] + parts[k + 1..];
    FlattenAppend(parts[..k] + [parts[k]], parts[k + 1..]);
    FlattenAppend(parts[..k], [parts[k]]);
    assert Flatten([parts[k]]) == parts[k] by {
      var one: seq<seq<Byte>> := [parts[k]];
      assert one[..0] == [];
    }
  }

  /** A field inside a sub-sequence that sits at `base` reads the same from the whole. */
  lemma ReadLE16In(s: seq<Byte>, base: nat, sub: seq<Byte>, at: nat)
    requires base + |sub| <= |s| && s[base..base + |sub|] == sub && at + 2 <= |sub|
    ensures ReadLE16(s, base + at) == ReadLE16(sub, at)
  {
    assert s[base + at] == sub[at] && s[base + at + 1] == sub[at + 1];
  }

  lemma ReadLE32In(s: seq<Byte>, base: nat, sub: seq<Byte>, at: nat)
    requires base + |sub| <= |s| && s[base..base + |sub|] == sub && at + 4 <= |sub|
    ensures ReadLE32(s, base + at) == ReadLE32(sub, at)
  {
    assert s[base + at] == sub[at] && s[base + at + 1] == sub[at + 1];
    assert s[base + at + 2] == sub[at + 2] && s[base + at + 3] == sub[at + 3];
  }

  /** A slice of a prefix is the same slice of any extension. */
  lemma SliceOfPrefix(a: seq<Byte>, b: seq<Byte>, i: nat, j: nat)
    requires i <= j <= |a|
    ensures (a + b)[i..j] == a[i..j]
  {
  }

  lemma SliceOfSuffix(a: seq<Byte>, b: seq<Byte>, i: nat, j: nat)
    requires i <= j <= |b|
    ensures (a + b)[|a| + i..|a| + j] == b[i..j]
  {
  }

  lemma FlattenPair(a: seq<Byte>, b: seq<Byte>)
    ensures Flatten([a, b]) == a + b
  {
    var two: seq<seq<Byte>> := [a, b];
    assert two[..1] == [a];
    FlattenOne(a);
    assert Flatten(two) == Flatten(two[..1]) + b;
  }

  lemma FlattenOne(a: seq<Byte>)
    ensures Flatten([a]) == a
  {
    var one: seq<seq<Byte>> := [a];
    assert one[..0] == [];
  }

  /** Flattening one more part appends that part. */
  lemma FlattenSnoc(parts: seq<seq<Byte>>, k: nat)
    requires k < |parts|
    ensures Flatten(parts[..k + 1]) == Flatten(parts[..k]) + parts[k]
  {
    assert parts[..k + 1][..k] == parts[..k];
  }

  /** Part k, found inside the flattened parts followed by anything else. */
  lemma FlattenPartIn(parts: seq<seq<Byte>>, k: nat, rest: seq<Byte>)
    requires k < |parts|
    ensures var at := |Flatten(parts[..k])|;
      && at + |parts[k]| <= |Flatten(parts)|
      && (Flatten(parts) + rest)[at..at + |parts[k]|] == parts[k]
  {
    FlattenPart(parts, k);
    SliceOfPrefix(Flatten(parts), rest, |Flatten(parts[..k])|, |Flatten(parts[..k])| + |parts[k]|);
  }

  /** Two consecutive parts `h` and `d`, found inside the flattened parts followed by anything else. */
  lemma FlattenPairIn(parts: seq<seq<Byte>>, k: nat, rest: seq<Byte>, at: nat, h: seq<Byte>, d: seq<Byte>)
    requires k + 1 < |parts| && |Flatten(parts[..k])| == at && parts[k] == h && parts[k + 1] == d
    ensures at + |h| + |d| <= |Flatten(parts)|
    ensures (Flatten(parts) + rest)[at..at + |h|] == h
    ensures (Flatten(parts) + rest)[at + |h|..at + |h| + |d|] == d
  {
    FlattenPartIn(parts, k, rest);
    FlattenPartIn(parts, k + 1, rest);
    FlattenSnoc(parts, k);
  }

  /** Part `p`, found after a prefix `pre` inside the flattened parts followed by anything else. */
  lemma FlattenPartAfter(pre: seq<Byte>, parts: seq<seq<Byte>>, k: nat, rest: seq<Byte>, at: nat, p: seq<Byte>)
    requires k < |parts| && |Flatten(parts[..k])| == at && parts[k] == p
    ensures at + |p| <= |Flatten(parts)|
    ensures (pre + (Flatten(parts) + rest))[|pre| + at..|pre| + at + |p|] == p
  {
    FlattenPartIn(parts, k, rest);
    SliceOfSuffix(pre, Flatten(parts) + rest, at, at + |p|);
  }
}
