/**
 * The ZIP "store" writer: local file headers, central directory records and the end of central
 * directory record (sections 4.3.7, 4.3.12 and 4.3.16 of PKWARE's APPNOTE.TXT), with
 * compression method 0 ("stored", section 4.4.5). Every multi-byte field is written
 * little-endian through a DataView, so counts, sizes and offsets wrap mod 2^16 or 2^32;
 * there is no ZIP64.
 */
module Zip {
  import opened Bytes
  import opened Crc32
  import opened DosTime

  const LocalSignature: int := 0x0403_4B50
  const CentralSignature: int := 0x0201_4B50
  const EocdSignature: int := 0x0605_4B50
  /** "Version needed to extract" and "version made by": 2.0. */
  const Version: int := 20

  /** What the writer records per file for its central directory entry. */
  datatype Entry = Entry(nameBytes: seq<Byte>, crc: nat, size: nat, offset: nat, dosTime: nat, dosDate: nat)

  /**
   * The local file header: the cursor `p` of `addFile` advances through the fields in this
   * order, so the header is their concatenation, followed by the name bytes.
   */
  function LocalHeader(nameBytes: seq<Byte>, crc: nat, size: nat, dosTime: nat, dosDate: nat): (h: seq<Byte>)
    ensures |h| == 30 + |nameBytes|
    ensures h[30..] == nameBytes
  {
    LE32(LocalSignature) + LE16(Version) + LE16(0) + LE16(0) + LE16(dosTime) + LE16(dosDate)
    + LE32(crc) + LE32(size) + LE32(size) + LE16(|nameBytes|) + LE16(0) + nameBytes
  }

  /** The central directory record of one entry, in the field order of `finalizeBlob`. */
  function CentralRecord(e: Entry): (h: seq<Byte>)
    ensures |h| == 46 + |e.nameBytes|
    ensures h[46..] == e.nameBytes
  {
    LE32(CentralSignature) + LE16(Version) + LE16(Version) + LE16(0) + LE16(0)
    + LE16(e.dosTime) + LE16(e.dosDate) + LE32(e.crc) + LE32(e.size) + LE32(e.size)
    + LE16(|e.nameBytes|) + LE16(0) + LE16(0) + LE16(0) + LE16(0) + LE32(0) + LE32(e.offset)
    + e.nameBytes
  }

  /** The end of central directory record: the entry count is written twice. */
  function Eocd(count: nat, centralSize: nat, centralStart: nat): (h: seq<Byte>)
    ensures |h| == 22
  {
    LE32(EocdSignature) + LE16(0) + LE16(0) + LE16(count) + LE16(count)
    + LE32(centralSize) + LE32(centralStart) + LE16(0)
  }

  /** The local header as the writer builds it from the entry it records. */
  function LocalHeaderOf(e: Entry): (h: seq<Byte>)
    ensures |h| == 30 + |e.nameBytes|
  {
    LocalHeader(e.nameBytes, e.crc, e.size, e.dosTime, e.dosDate)
  }

  // ---------------------------------------------------------------------------
  // Where each field sits, read back as a ZIP reader reads it.

  lemma LocalHeaderFields(nameBytes: seq<Byte>, crc: nat, size: nat, dosTime: nat, dosDate: nat)
    ensures ReadLE32(LocalHeader(nameBytes, crc, size, dosTime, dosDate), 0) == LocalSignature
    ensures ReadLE16(LocalHeader(nameBytes, crc, size, dosTime, dosDate), 4) == Version
    ensures ReadLE16(LocalHeader(nameBytes, crc, size, dosTime, dosDate), 6) == 0
    ensures ReadLE16(LocalHeader(nameBytes, crc, size, dosTime, dosDate), 8) == 0
    ensures ReadLE16(LocalHeader(nameBytes, crc, size, dosTime, dosDate), 10) == dosTime % TwoTo16
    ensures ReadLE16(LocalHeader(nameBytes, crc, size, dosTime, dosDate), 12) == dosDate % TwoTo16
  {
    var h := LocalHeader(nameBytes, crc, size, dosTime, dosDate);
    assert ReadLE32(h, 0) == LocalSignature by { ReadLE32At(h, 0, LocalSignature); }
    assert ReadLE16(h, 4) == Version by { ReadLE16At(h, 4, Version); }
    assert ReadLE16(h, 6) == 0 by { ReadLE16At(h, 6, 0); }
    assert ReadLE16(h, 8) == 0 by { ReadLE16At(h, 8, 0); }
    assert ReadLE16(h, 10) == dosTime % TwoTo16 by { ReadLE16At(h, 10, dosTime); }
    assert ReadLE16(h, 12) == dosDate % TwoTo16 by { ReadLE16At(h, 12, dosDate); }
  }

  lemma LocalHeaderSizes(nameBytes: seq<Byte>, crc: nat, size: nat, dosTime: nat, dosDate: nat)
    ensures ReadLE32(LocalHeader(nameBytes, crc, size, dosTime, dosDate), 14) == crc % TwoTo32
    ensures ReadLE32(LocalHeader(nameBytes, crc, size, dosTime, dosDate), 18) == size % TwoTo32
    ensures ReadLE32(LocalHeader(nameBytes, crc, size, dosTime, dosDate), 22) == size % TwoTo32
    ensures ReadLE16(LocalHeader(nameBytes, crc, size, dosTime, dosDate), 26) == |nameBytes| % TwoTo16
    ensures ReadLE16(LocalHeader(nameBytes, crc, size, dosTime, dosDate), 28) == 0
  {
    var h := LocalHeader(nameBytes, crc, size, dosTime, dosDate);
    assert ReadLE32(h, 14) == crc % TwoTo32 by { ReadLE32At(h, 14, crc); }
    assert ReadLE32(h, 18) == size % TwoTo32 by { ReadLE32At(h, 18, size); }
    assert ReadLE32(h, 22) == size % TwoTo32 by { ReadLE32At(h, 22, size); }
    assert ReadLE16(h, 26) == |nameBytes| % TwoTo16 by { ReadLE16At(h, 26, |nameBytes|); }
    assert ReadLE16(h, 28) == 0 by { ReadLE16At(h, 28, 0); }
  }

  lemma CentralRecordFields(e: Entry)
    ensures ReadLE32(CentralRecord(e), 0) == CentralSignature
    ensures ReadLE16(CentralRecord(e), 4) == Version && ReadLE16(CentralRecord(e), 6) == Version
    ensures ReadLE16(CentralRecord(e), 8) == 0 && ReadLE16(CentralRecord(e), 10) == 0
  {
    var h := CentralRecord(e);
    assert ReadLE32(h, 0) == CentralSignature by { ReadLE32At(h, 0, CentralSignature); }
    assert ReadLE16(h, 4) == Version by { ReadLE16At(h, 4, Version); }
    assert ReadLE16(h, 6) == Version by { ReadLE16At(h, 6, Version); }
    assert ReadLE16(h, 8) == 0 by { ReadLE16At(h, 8, 0); }
    assert ReadLE16(h, 10) == 0 by { ReadLE16At(h, 10, 0); }
  }

  lemma CentralRecordTimes(e: Entry)
    ensures ReadLE16(CentralRecord(e), 12) == e.dosTime % TwoTo16
    ensures ReadLE16(CentralRecord(e), 14) == e.dosDate % TwoTo16
  {
    var h := CentralRecord(e);
    assert ReadLE16(h, 12) == e.dosTime % TwoTo16 by { ReadLE16At(h, 12, e.dosTime); }
    assert ReadLE16(h, 14) == e.dosDate % TwoTo16 by { ReadLE16At(h, 14, e.dosDate); }
  }

  lemma CentralRecordSizes(e: Entry)
    ensures ReadLE32(CentralRecord(e), 16) == e.crc % TwoTo32
    ensures ReadLE32(CentralRecord(e), 20) == e.size % TwoTo32
    ensures ReadLE32(CentralRecord(e), 24) == e.size % TwoTo32
    ensures ReadLE16(CentralRecord(e), 28) == |e.nameBytes| % TwoTo16
  {
    var h := CentralRecord(e);
    assert ReadLE32(h, 16) == e.crc % TwoTo32 by { ReadLE32At(h, 16, e.crc); }
    assert ReadLE32(h, 20) == e.size % TwoTo32 by { ReadLE32At(h, 20, e.size); }
    assert ReadLE32(h, 24) == e.size % TwoTo32 by { ReadLE32At(h, 24, e.size); }
    assert ReadLE16(h, 28) == |e.nameBytes| % TwoTo16 by { ReadLE16At(h, 28, |e.nameBytes|); }
  }

  /** Extra field, comment, disk number and attributes are all zero. */
  lemma CentralRecordZeros(e: Entry)
    ensures ReadLE16(CentralRecord(e), 30) == 0
    ensures ReadLE16(CentralRecord(e), 32) == 0
    ensures ReadLE16(CentralRecord(e), 34) == 0
    ensures ReadLE16(CentralRecord(e), 36) == 0
    ensures ReadLE32(CentralRecord(e), 38) == 0
  {
    var h := CentralRecord(e);
    assert ReadLE16(h, 30) == 0 by { ReadLE16At(h, 30, 0); }
    assert ReadLE16(h, 32) == 0 by { ReadLE16At(h, 32, 0); }
    assert ReadLE16(h, 34) == 0 by { ReadLE16At(h, 34, 0); }
    assert ReadLE16(h, 36) == 0 by { ReadLE16At(h, 36, 0); }
    assert ReadLE32(h, 38) == 0 by { ReadLE32At(h, 38, 0); }
  }

  /** The relative offset of the local header, at byte 42 of the central record. */
  lemma CentralRecordOffset(e: Entry)
    ensures ReadLE32(CentralRecord(e), 42) == e.offset % TwoTo32
  {
    ReadLE32At(CentralRecord(e), 42, e.offset);
  }

  lemma EocdFields(count: nat, centralSize: nat, centralStart: nat)
    ensures ReadLE32(Eocd(count, centralSize, centralStart), 0) == EocdSignature
    ensures ReadLE16(Eocd(count, centralSize, centralStart), 4) == 0
    ensures ReadLE16(Eocd(count, centralSize, centralStart), 6) == 0
    ensures ReadLE16(Eocd(count, centralSize, centralStart), 8) == count % TwoTo16
    ensures ReadLE16(Eocd(count, centralSize, centralStart), 10) == count % TwoTo16
    ensures ReadLE32(Eocd(count, centralSize, centralStart), 12) == centralSize % TwoTo32
    ensures ReadLE32(Eocd(count, centralSize, centralStart), 16) == centralStart % TwoTo32
    ensures ReadLE16(Eocd(count, centralSize, centralStart), 20) == 0
  {
    var h := Eocd(count, centralSize, centralStart);
    assert ReadLE32(h, 0) == EocdSignature by { ReadLE32At(h, 0, EocdSignature); }
    assert ReadLE16(h, 4) == 0 by { ReadLE16At(h, 4, 0); }
    assert ReadLE16(h, 6) == 0 by { ReadLE16At(h, 6, 0); }
    assert ReadLE16(h, 8) == count % TwoTo16 by { ReadLE16At(h, 8, count); }
    assert ReadLE16(h, 10) == count % TwoTo16 by { ReadLE16At(h, 10, count); }
    assert ReadLE32(h, 12) == centralSize % TwoTo32 by { ReadLE32At(h, 12, centralSize); }
    assert ReadLE32(h, 16) == centralStart % TwoTo32 by { ReadLE32At(h, 16, centralStart); }
    assert ReadLE16(h, 20) == 0 by { ReadLE16At(h, 20, 0); }
  }
}
