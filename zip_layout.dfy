/**
 * A reference layout of the archive, defined from scratch with prefix sums: all local headers
 * with their data, then one central record per file, then the end record. The writer in
 * `ZipWriting` is proved to produce exactly this layout; the lemmas here say where each record
 * lies and that the offsets recorded in the central directory and in the end record point
 * back at the records a reader must find there.
 *
 * The layout is stated over `Member`s, an entry with its data, so that the byte-level lemmas
 * hold for any recorded checksum; `Members` then builds the members of a list of files with
 * the checksum and the offsets the writer computes.
 */
module ZipLayout {
  import opened Bytes
  import opened Crc32
  import opened DosTime
  import opened Zip

  /** One `addFile(name, data)` call: the UTF-8 name bytes, the data and the clock reading. */
  datatype FileInput = FileInput(nameBytes: seq<Byte>, data: seq<Byte>, now: DateParts)

  /** A stored file: its central directory entry and its data. */
  datatype Member = Member(entry: Entry, data: seq<Byte>)

  /** The bytes the local part occupies: Σ (30 + name length + data length). */
  function LocalSize(ms: seq<Member>): nat
  {
    if ms == [] then 0
    else LocalSize(ms[..|ms| - 1]) + 30 + |ms[|ms| - 1].entry.nameBytes| + |ms[|ms| - 1].data|
  }

  /** Header and data of each member, in order. */
  function LocalParts(ms: seq<Member>): seq<seq<Byte>>
  {
    if ms == [] then []
    else LocalParts(ms[..|ms| - 1]) + [LocalHeaderOf(ms[|ms| - 1].entry), ms[|ms| - 1].data]
  }

  function EntriesOf(ms: seq<Member>): (es: seq<Entry>)
    ensures |es| == |ms| && forall k :: 0 <= k < |ms| ==> es[k] == ms[k].entry
  {
    if ms == [] then [] else EntriesOf(ms[..|ms| - 1]) + [ms[|ms| - 1].entry]
  }

  function CentralParts(es: seq<Entry>): seq<seq<Byte>>
  {
    if es == [] then [] else CentralParts(es[..|es| - 1]) + [CentralRecord(es[|es| - 1])]
  }

  /** The size of the central directory: Σ (46 + name length). */
  function CentralSize(es: seq<Entry>): nat
  {
    if es == [] then 0 else CentralSize(es[..|es| - 1]) + 46 + |es[|es| - 1].nameBytes|
  }

  /** The archive of the members: local part, central directory, end record. */
  function ArchiveOf(ms: seq<Member>): seq<Byte>
  {
    Flatten(LocalParts(ms))
    + (Flatten(CentralParts(EntriesOf(ms))) + Eocd(|ms|, CentralSize(EntriesOf(ms)), LocalSize(ms)))
  }

  /** Every entry records where its member's local header starts. */
  ghost predicate OffsetsConsistent(ms: seq<Member>)
  {
    forall k :: 0 <= k < |ms| ==> ms[k].entry.offset == LocalSize(ms[..k])
  }

  /** The member `addFile` records for `f` when the local part so far is `offset` bytes long. */
  function MemberFor(f: FileInput, offset: nat): (m: Member)
    ensures m.entry.nameBytes == f.nameBytes && m.data == f.data && m.entry.offset == offset
    ensures m.entry.size == |f.data| && m.entry.crc == Crc(f.data) as int
    ensures m.entry.dosTime == PackTime(f.now) && m.entry.dosDate == PackDate(f.now)
  {
    Member(Entry(f.nameBytes, Crc(f.data) as int, |f.data|, offset, PackTime(f.now), PackDate(f.now)), f.data)
  }

  /** The members recorded for a list of files added in order. */
  function Members(fs: seq<FileInput>): seq<Member>
  {
    if fs == [] then []
    else
      var init := Members(fs[..|fs| - 1]);
      init + [MemberFor(fs[|fs| - 1], LocalSize(init))]
  }

  /** The archive `finalizeBlob` produces for files added in order. */
  function Archive(fs: seq<FileInput>): seq<Byte>
  {
    ArchiveOf(Members(fs))
  }

  // ---------------------------------------------------------------------------
  // The members of a list of files.

  lemma {:induction false} MembersShape(fs: seq<FileInput>)
    ensures |Members(fs)| == |fs|
    ensures forall k :: 0 <= k < |fs| ==> Members(fs)[..k] == Members(fs[..k])
  {
    if fs != [] {
      var init := fs[..|fs| - 1];
      MembersShape(init);
      forall k | 0 <= k < |fs|
        ensures Members(fs)[..k] == Members(fs[..k])
      {
        if k < |fs| - 1 {
          assert init[..k] == fs[..k];
          assert Members(fs)[..k] == Members(init)[..k];
        } else {
          assert fs[..k] == init;
        }
      }
    }
  }

  /** Member k of a list of files is file k as `addFile` records it. */
  lemma {:induction false} MembersIndex(fs: seq<FileInput>, k: nat)
    requires k < |fs|
    ensures |Members(fs)| == |fs|
    ensures Members(fs)[k] == MemberFor(fs[k], LocalSize(Members(fs[..k])))
  {
    MembersShape(fs);
    var init := fs[..|fs| - 1];
    if k < |fs| - 1 {
      assert init[..k] == fs[..k];
      MembersShape(init);
      MembersIndex(init, k);
    }
  }

  /** Each recorded offset is where that member's header starts. */
  lemma {:induction false} MembersConsistent(fs: seq<FileInput>)
    ensures OffsetsConsistent(Members(fs))
  {
    MembersShape(fs);
    forall k | 0 <= k < |fs|
      ensures Members(fs)[k].entry.offset == LocalSize(Members(fs)[..k])
    {
      MembersIndex(fs, k);
    }
  }

  /** Adding a file appends one member, recorded at the current size of the local part. */
  lemma {:induction false} MembersSnoc(fs: seq<FileInput>, f: FileInput)
    ensures Members(fs + [f]) == Members(fs) + [MemberFor(f, LocalSize(Members(fs)))]
  {
    assert (fs + [f])[..|fs + [f]| - 1] == fs;
  }

  /** One more member extends the local parts by its header and data, and the entries by its entry. */
  lemma {:induction false} MemberSnoc(ms: seq<Member>, m: Member)
    ensures LocalParts(ms + [m]) == LocalParts(ms) + [LocalHeaderOf(m.entry), m.data]
    ensures EntriesOf(ms + [m]) == EntriesOf(ms) + [m.entry]
    ensures LocalSize(ms + [m]) == LocalSize(ms) + 30 + |m.entry.nameBytes| + |m.data|
  {
    assert (ms + [m])[..|ms + [m]| - 1] == ms;
  }

  /** The archive is the flattening of the parts in the order the writer pushes them. */
  lemma {:induction false} ArchiveParts(ms: seq<Member>)
    ensures ArchiveOf(ms)
      == Flatten(LocalParts(ms) + CentralParts(EntriesOf(ms)) + [Eocd(|ms|, CentralSize(EntriesOf(ms)), LocalSize(ms))])
  {
    var l, c := LocalParts(ms), CentralParts(EntriesOf(ms));
    var e := Eocd(|ms|, CentralSize(EntriesOf(ms)), LocalSize(ms));
    FlattenAppend(l + c, [e]);
    FlattenAppend(l, c);
    FlattenOne(e);
    AppendAssoc(Flatten(l), Flatten(c), e);
  }

  lemma AppendAssoc(a: seq<Byte>, b: seq<Byte>, c: seq<Byte>)
    ensures a + b + c == a + (b + c)
  {
  }

  // ---------------------------------------------------------------------------
  // Lengths and indices of the part lists.

  lemma {:induction false} LocalPartsShape(ms: seq<Member>)
    ensures |LocalParts(ms)| == 2 * |ms|
    ensures |Flatten(LocalParts(ms))| == LocalSize(ms)
  {
    if ms != [] {
      var init := ms[..|ms| - 1];
      var last := ms[|ms| - 1];
      LocalPartsShape(init);
      FlattenAppend(LocalParts(init), [LocalHeaderOf(last.entry), last.data]);
      FlattenPair(LocalHeaderOf(last.entry), last.data);
    }
  }

  lemma {:induction false} LocalPartsPrefix(ms: seq<Member>, k: nat)
    requires k <= |ms|
    ensures |LocalParts(ms)| == 2 * |ms| && LocalParts(ms)[..2 * k] == LocalParts(ms[..k])
  {
    LocalPartsShape(ms);
    if k < |ms| {
      var init := ms[..|ms| - 1];
      assert init[..k] == ms[..k];
      LocalPartsShape(init);
      LocalPartsPrefix(init, k);
      assert LocalParts(ms)[..2 * k] == LocalParts(init)[..2 * k];
    } else {
      assert ms[..k] == ms;
    }
  }

  lemma {:induction false} LocalPartsIndex(ms: seq<Member>, k: nat)
    requires k < |ms|
    ensures |LocalParts(ms)| == 2 * |ms|
    ensures LocalParts(ms)[2 * k] == LocalHeaderOf(ms[k].entry) && LocalParts(ms)[2 * k + 1] == ms[k].data
  {
    LocalPartsShape(ms);
    LocalPartsPrefix(ms, k + 1);
    var pre := ms[..k + 1];
    assert pre[..|pre| - 1] == ms[..k];
    LocalPartsShape(ms[..k]);
    assert LocalParts(ms)[2 * k] == LocalParts(pre)[2 * k];
    assert LocalParts(ms)[2 * k + 1] == LocalParts(pre)[2 * k + 1];
  }

  lemma {:induction false} CentralPartsShape(es: seq<Entry>)
    ensures |CentralParts(es)| == |es|
    ensures |Flatten(CentralParts(es))| == CentralSize(es)
  {
    if es != [] {
      var init := es[..|es| - 1];
      CentralPartsShape(init);
      FlattenAppend(CentralParts(init), [CentralRecord(es[|es| - 1])]);
      FlattenOne(CentralRecord(es[|es| - 1]));
    }
  }

  lemma {:induction false} CentralPartsPrefix(es: seq<Entry>, k: nat)
    requires k <= |es|
    ensures |CentralParts(es)| == |es| && CentralParts(es)[..k] == CentralParts(es[..k])
  {
    CentralPartsShape(es);
    if k < |es| {
      var init := es[..|es| - 1];
      assert init[..k] == es[..k];
      CentralPartsShape(init);
      CentralPartsPrefix(init, k);
    } else {
      assert es[..k] == es;
    }
  }

  lemma {:induction false} CentralPartsIndex(es: seq<Entry>, k: nat)
    requires k < |es|
    ensures |CentralParts(es)| == |es| && CentralParts(es)[k] == CentralRecord(es[k])
  {
    CentralPartsShape(es);
    CentralPartsPrefix(es, k + 1);
    var pre := es[..k + 1];
    assert pre[..|pre| - 1] == es[..k];
  }

  // ---------------------------------------------------------------------------
  // Where the records lie in the archive.

  /** The archive is Σ(30 + n + d) + Σ(46 + n) + 22 bytes long. */
  lemma {:induction false} ArchiveLength(ms: seq<Member>)
    ensures |ArchiveOf(ms)| == LocalSize(ms) + CentralSize(EntriesOf(ms)) + 22
  {
    LocalPartsShape(ms);
    CentralPartsShape(EntriesOf(ms));
  }

  /** Member k's local header `h` starts at the total size `at` of the members before it, and its data `d` follows. */
  lemma {:induction false} LocalRecordAt(ms: seq<Member>, k: nat, at: nat, h: seq<Byte>, d: seq<Byte>)
    requires k < |ms| && at == LocalSize(ms[..k]) && h == LocalHeaderOf(ms[k].entry) && d == ms[k].data
    ensures at + |h| + |d| <= LocalSize(ms)
    ensures |ArchiveOf(ms)| == LocalSize(ms) + CentralSize(EntriesOf(ms)) + 22
    ensures ArchiveOf(ms)[at..at + |h|] == h
    ensures ArchiveOf(ms)[at + |h|..at + |h| + |d|] == d
  {
    var parts := LocalParts(ms);
    var rest := Flatten(CentralParts(EntriesOf(ms))) + Eocd(|ms|, CentralSize(EntriesOf(ms)), LocalSize(ms));
    LocalPartsShape(ms);
    LocalPartsIndex(ms, k);
    LocalPartsPrefix(ms, k);
    LocalPartsShape(ms[..k]);
    FlattenPairIn(parts, 2 * k, rest, at, h, d);
    ArchiveLength(ms);
  }

  /** Central record `r` of member k starts at `at`, after the local part and the central records before it. */
  lemma {:induction false} CentralRecordAt(ms: seq<Member>, k: nat, at: nat, r: seq<Byte>)
    requires k < |ms| && at == LocalSize(ms) + CentralSize(EntriesOf(ms)[..k]) && r == CentralRecord(ms[k].entry)
    ensures at + |r| + 22 <= |ArchiveOf(ms)|
    ensures ArchiveOf(ms)[at..at + |r|] == r
  {
    var es := EntriesOf(ms);
    var cparts := CentralParts(es);
    var c0 := CentralSize(es[..k]);
    CentralPartsShape(es);
    assert |Flatten(cparts[..k])| == c0 by {
      CentralPartsPrefix(es, k);
      CentralPartsShape(es[..k]);
    }
    assert cparts[k] == r by { CentralPartsIndex(es, k); }
    assert |Flatten(LocalParts(ms))| == LocalSize(ms) by { LocalPartsShape(ms); }
    FlattenPartAfter(Flatten(LocalParts(ms)), cparts, k, Eocd(|ms|, CentralSize(es), LocalSize(ms)), c0, r);
    ArchiveLength(ms);
  }

  /** The end record is the last 22 bytes. */
  lemma {:induction false} EocdAt(ms: seq<Member>)
    ensures |ArchiveOf(ms)| >= 22
    ensures ArchiveOf(ms)[|ArchiveOf(ms)| - 22..] == Eocd(|ms|, CentralSize(EntriesOf(ms)), LocalSize(ms))
  {
    ArchiveLength(ms);
  }

  /**
   * Central record k, at `at`, carries the signature 0x02014b50, and, when the offsets are
   * consistent, its relative-offset field (byte 42) holds, mod 2^32, the position `local` at
   * which member k's local header begins.
   */
  lemma {:induction false} CentralOffsetPointsBack(ms: seq<Member>, k: nat, at: nat, local: nat)
    requires OffsetsConsistent(ms) && k < |ms|
    requires at == LocalSize(ms) + CentralSize(EntriesOf(ms)[..k]) && local == LocalSize(ms[..k])
    ensures at + 46 <= |ArchiveOf(ms)|
    ensures ReadLE32(ArchiveOf(ms), at) == CentralSignature
    ensures ReadLE32(ArchiveOf(ms), at + 42) == local % TwoTo32
  {
    var e := ms[k].entry;
    CentralRecordAt(ms, k, at, CentralRecord(e));
    CentralOffsetField(ArchiveOf(ms), at, e);
  }

  /** Member k's local header, at `local`, carries the signature 0x04034b50. */
  lemma {:induction false} LocalSignatureAt(ms: seq<Member>, k: nat, local: nat)
    requires k < |ms| && local == LocalSize(ms[..k])
    ensures local + 30 <= |ArchiveOf(ms)|
    ensures ReadLE32(ArchiveOf(ms), local) == LocalSignature
  {
    var e := ms[k].entry;
    LocalRecordAt(ms, k, local, LocalHeaderOf(e), ms[k].data);
    LocalSignatureField(ArchiveOf(ms), local, e);
  }

  /** A central record found at `at` reads back its signature and its offset field. */
  lemma {:induction false} CentralOffsetField(a: seq<Byte>, at: nat, e: Entry)
    requires at + |CentralRecord(e)| <= |a| && a[at..at + |CentralRecord(e)|] == CentralRecord(e)
    ensures ReadLE32(a, at) == CentralSignature && ReadLE32(a, at + 42) == e.offset % TwoTo32
  {
    CentralRecordFields(e);
    CentralRecordOffset(e);
    ReadLE32In(a, at, CentralRecord(e), 0);
    ReadLE32In(a, at, CentralRecord(e), 42);
  }

  /** A local header found at `at` reads back its signature. */
  lemma {:induction false} LocalSignatureField(a: seq<Byte>, at: nat, e: Entry)
    requires at + |LocalHeaderOf(e)| <= |a| && a[at..at + |LocalHeaderOf(e)|] == LocalHeaderOf(e)
    ensures ReadLE32(a, at) == LocalSignature
  {
    LocalHeaderFields(e.nameBytes, e.crc, e.size, e.dosTime, e.dosDate);
    ReadLE32In(a, at, LocalHeaderOf(e), 0);
  }

  /**
   * The last 22 bytes of `a` read back as an end record with the signature 0x06054b50, the
   * entry count twice (mod 2^16), the central directory's size and its start (mod 2^32).
   */
  predicate EndRecordReads(a: seq<Byte>, count: nat, centralSize: nat, centralStart: nat)
  {
    && |a| >= 22
    && ReadLE32(a, |a| - 22) == EocdSignature
    && ReadLE16(a, |a| - 14) == count % TwoTo16
    && ReadLE16(a, |a| - 12) == count % TwoTo16
    && ReadLE32(a, |a| - 10) == centralSize % TwoTo32
    && ReadLE32(a, |a| - 6) == centralStart % TwoTo32
  }

  /** The end record gives the number of members, the central directory's size and where it starts. */
  lemma {:induction false} EocdPointsBack(ms: seq<Member>)
    ensures EndRecordReads(ArchiveOf(ms), |ms|, CentralSize(EntriesOf(ms)), LocalSize(ms))
  {
    EocdAt(ms);
    EocdRead(ArchiveOf(ms), |ms|, CentralSize(EntriesOf(ms)), LocalSize(ms));
  }

  /** An end record found at the end of `a` reads back its fields. */
  lemma {:induction false} EocdRead(a: seq<Byte>, count: nat, centralSize: nat, centralStart: nat)
    requires |a| >= 22 && a[|a| - 22..] == Eocd(count, centralSize, centralStart)
    ensures EndRecordReads(a, count, centralSize, centralStart)
  {
    var e := Eocd(count, centralSize, centralStart);
    var at := |a| - 22;
    assert a[at..at + 22] == e;
    EocdFields(count, centralSize, centralStart);
    ReadLE32In(a, at, e, 0);
    ReadLE16In(a, at, e, 8);
    ReadLE16In(a, at, e, 10);
    ReadLE32In(a, at, e, 12);
    ReadLE32In(a, at, e, 16);
  }

  /** The central directory starts where the end record says, with a central record if there is one. */
  lemma {:induction false} CentralStartPointsBack(ms: seq<Member>)
    requires OffsetsConsistent(ms) && |ms| > 0
    ensures LocalSize(ms) + 4 <= |ArchiveOf(ms)| && ReadLE32(ArchiveOf(ms), LocalSize(ms)) == CentralSignature
  {
    assert EntriesOf(ms)[..0] == [];
    assert ms[..0] == [];
    CentralOffsetPointsBack(ms, 0, LocalSize(ms), 0);
  }
}
