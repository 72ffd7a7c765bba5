/**
 * `ZipWriter`: the stateful writer. `addFile` pushes a local header and the data onto `parts`
 * and records an entry; `finalizeBlob` pushes one central record per entry and the end record
 * and returns the concatenation of all parts, as a Blob built from them holds it.
 *
 * The writer has no finished state: `addFile` after `finalizeBlob`, or a second
 * `finalizeBlob`, appends to the same parts. `finalizeBlob` also advances `offset` by the
 * central directory's size but not by the 22 bytes of the end record, so after it `offset`
 * falls 22 bytes short of the bytes pushed. `Valid` states both: the parts always measure
 * `offset + 22 * finalized`, and before the first `finalizeBlob` the state is exactly the
 * reference layout of the files added so far.
 */
module ZipWriting {
  import opened Bytes
  import opened Crc32
  import opened DosTime
  import opened Zip
  import opened ZipLayout

  /**
   * What the writer's fields hold after the calls `added` and `finalized` calls of
   * `finalizeBlob`: the parts measure `offset + 22 * finalized`; entry k records file k's name,
   * checksum, size and times (at some offset); and before the first `finalizeBlob` the parts,
   * the entries and the offset are those of the reference layout.
   */
  ghost predicate Consistent(entries: seq<Entry>, offset: nat, parts: seq<seq<Byte>>, added: seq<FileInput>, finalized: nat)
  {
    && |Flatten(parts)| == offset + 22 * finalized
    && |entries| == |added|
    && (forall k :: 0 <= k < |entries| ==> entries[k] == MemberFor(added[k], entries[k].offset).entry)
    && (finalized == 0 ==>
          && parts == LocalParts(Members(added))
          && entries == EntriesOf(Members(added))
          && offset == LocalSize(Members(added)))
  }

  /** `addFile` keeps the state consistent: file `f` is recorded at the current offset. */
  lemma {:induction false} AddFileKeeps(entries: seq<Entry>, offset: nat, parts: seq<seq<Byte>>, added: seq<FileInput>,
                                        finalized: nat, f: FileInput, e: Entry, h: seq<Byte>)
    requires Consistent(entries, offset, parts, added, finalized)
    requires e == MemberFor(f, offset).entry && h == LocalHeaderOf(e)
    ensures Consistent(entries + [e], offset + |h| + |f.data|, parts + [h, f.data], added + [f], finalized)
  {
    FlattenAppend(parts, [h, f.data]);
    FlattenPair(h, f.data);
    var entries', added' := entries + [e], added + [f];
    forall k | 0 <= k < |entries'|
      ensures entries'[k] == MemberFor(added'[k], entries'[k].offset).entry
    {
      if k < |entries| {
        assert entries'[k] == entries[k] && added'[k] == added[k];
      }
    }
    if finalized == 0 {
      var ms := Members(added);
      MembersSnoc(added, f);
      MemberSnoc(ms, MemberFor(f, LocalSize(ms)));
    }
  }

  /** `finalizeBlob` keeps the state consistent: the central records and the end record are pushed. */
  lemma {:induction false} FinalizeKeeps(entries: seq<Entry>, offset: nat, parts: seq<seq<Byte>>, added: seq<FileInput>,
                                         finalized: nat, central: seq<seq<Byte>>, centralSize: nat, eocd: seq<Byte>)
    requires Consistent(entries, offset, parts, added, finalized)
    requires central == CentralParts(entries) && centralSize == CentralSize(entries)
    requires eocd == Eocd(|entries|, centralSize, offset)
    ensures Consistent(entries, offset + centralSize, parts + central + [eocd], added, finalized + 1)
    ensures finalized == 0 ==> Flatten(parts + central + [eocd]) == Archive(added)
  {
    CentralPartsShape(entries);
    FlattenAppend(parts + central, [eocd]);
    FlattenAppend(parts, central);
    FlattenOne(eocd);
    if finalized == 0 {
      ArchiveParts(Members(added));
    }
  }

  /** The loop of `finalizeBlob` that builds one central record per entry and sums their sizes. */
  method CentralDirectory(entries: seq<Entry>) returns (centralParts: seq<seq<Byte>>, centralSize: nat)
    ensures centralParts == CentralParts(entries)
    ensures centralSize == CentralSize(entries)
  {
    centralParts := [];
    centralSize := 0;
    var i := 0;
    while i < |entries|
      invariant 0 <= i <= |entries|
      invariant centralParts == CentralParts(entries[..i])
      invariant centralSize == CentralSize(entries[..i])
    {
      var hdr := CentralRecord(entries[i]);
      assert entries[..i + 1][..i] == entries[..i];
      centralParts := centralParts + [hdr];
      centralSize := centralSize + |hdr|;
      i := i + 1;
    }
    assert entries[..i] == entries;
  }

  class ZipWriter {
    var entries: seq<Entry>
    var offset: nat
    var parts: seq<seq<Byte>>
    /** `CRC_TABLE`. */
    const crcTable: seq<bv32>
    /** The `addFile` calls made so far, and the number of `finalizeBlob` calls. */
    ghost var added: seq<FileInput>
    ghost var finalized: nat

    ghost predicate Valid()
      reads this
    {
      IsCrcTable(crcTable) && Consistent(entries, offset, parts, added, finalized)
    }

    /** An empty writer; the CRC table is built once, here. */
    constructor ()
      ensures Valid()
      ensures entries == [] && offset == 0 && parts == [] && added == [] && finalized == 0
    {
      var table := MakeCrcTable();
      crcTable := table;
      entries := [];
      offset := 0;
      parts := [];
      added := [];
      finalized := 0;
    }

    /**
     * `addFile(name, data)` with the name already UTF-8 encoded and the clock reading passed in.
     * The entry records the offset the writer held before the call.
     */
    method AddFile(nameBytes: seq<Byte>, data: seq<Byte>, now: DateParts)
      requires Valid()
      modifies this
      ensures Valid()
      ensures added == old(added) + [FileInput(nameBytes, data, now)] && finalized == old(finalized)
      ensures entries == old(entries) + [Entry(nameBytes, Crc(data) as int, |data|, old(offset), PackTime(now), PackDate(now))]
      ensures parts == old(parts) + [LocalHeader(nameBytes, Crc(data) as int, |data|, PackTime(now), PackDate(now)), data]
      ensures offset == old(offset) + 30 + |nameBytes| + |data|
    {
      var crc := Crc32.Crc32(crcTable, data);
      var dosTime, dosDate := PackTime(now), PackDate(now);
      var localHeader := LocalHeader(nameBytes, crc, |data|, dosTime, dosDate);
      var localOffset := offset;
      var entry := Entry(nameBytes, crc, |data|, localOffset, dosTime, dosDate);
      ghost var f := FileInput(nameBytes, data, now);
      AddFileKeeps(entries, offset, parts, added, finalized, f, entry, localHeader);
      parts := parts + [localHeader, data];
      offset := offset + |localHeader| + |data|;
      entries := entries + [entry];
      added := added + [f];
    }

    /**
     * `finalizeBlob()`: the central records of all entries recorded so far, then the end record
     * with the offset held before the central records as the directory's start.
     */
    method FinalizeBlob() returns (blob: seq<Byte>)
      requires Valid()
      modifies this
      ensures Valid()
      ensures entries == old(entries) && added == old(added) && finalized == old(finalized) + 1
      ensures parts == old(parts) + CentralParts(entries) + [Eocd(|entries|, CentralSize(entries), old(offset))]
      ensures offset == old(offset) + CentralSize(entries)
      ensures blob == Flatten(parts)
      ensures old(finalized) == 0 ==> blob == Archive(added)
    {
      var centralParts, centralSize := CentralDirectory(entries);
      var centralStart := offset;
      var eocd := Eocd(|entries|, centralSize, centralStart);
      FinalizeKeeps(entries, offset, parts, added, finalized, centralParts, centralSize, eocd);
      parts := parts + centralParts;
      offset := offset + centralSize;
      parts := parts + [eocd];
      finalized := finalized + 1;
      blob := Flatten(parts);
    }
  }
}
