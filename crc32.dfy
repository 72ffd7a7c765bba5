/**
 * CRC-32 as the ZIP writer computes it (section 4.4.7 of PKWARE's APPNOTE.TXT; the reflected
 * polynomial 0xEDB88320 of IEEE 802.3). JavaScript's 32-bit bitwise operators act on
 * two's-complement bit patterns, so the register is a `bv32`; `>>>` is the logical shift `>>`.
 */
module Crc32 {
  import opened Bytes

  const Polynomial: bv32 := 0xEDB8_8320

  /** One reflected shift/xor round of `makeCrcTable`'s inner loop. */
  function Round(c: bv32): bv32
  {
    if c & 1 == 1 then Polynomial ^ (c >> 1) else c >> 1
  }

  /** `k` rounds applied to `c`. */
  function Rounds(c: bv32, k: nat): bv32
  {
    if k == 0 then c else Round(Rounds(c, k - 1))
  }

  /** Entry n of the table: eight rounds starting from n. */
  function TableEntry(n: bv32): bv32
  {
    Rounds(n, 8)
  }

  ghost predicate IsCrcTable(table: seq<bv32>)
  {
    |table| == 256 && forall j :: 0 <= j < 256 ==> table[j] == TableEntry(j as bv32)
  }

  /** Builds `CRC_TABLE`: entry n is eight rounds from n (each entry is a 32-bit value by its type). */
  method MakeCrcTable() returns (table: seq<bv32>)
    ensures IsCrcTable(table)
  {
    table := [];
    var n := 0;
    while n < 256
      invariant 0 <= n <= 256
      invariant |table| == n
      invariant forall j :: 0 <= j < n ==> table[j] == TableEntry(j as bv32)
    {
      var c: bv32 := n as bv32;
      var k := 0;
      while k < 8
        invariant 0 <= k <= 8
        invariant c == Rounds(n as bv32, k)
      {
        c := if c & 1 == 1 then Polynomial ^ (c >> 1) else c >> 1;
        k := k + 1;
      }
      table := table + [c];
      n := n + 1;
    }
  }

  /** One table-driven step of `crc32`'s loop. */
  function Step(c: bv32, b: Byte): bv32
  {
    StepBits(c, b as bv32)
  }

  /** The step on the byte as the low bits of a register value. */
  function StepBits(c: bv32, x: bv32): bv32
  {
    (c >> 8) ^ TableEntry((c ^ x) & 0xFF)
  }

  /** The register after processing `buf` from the initial value 0xFFFFFFFF. */
  function Register(buf: seq<Byte>): bv32
  {
    if buf == [] then 0xFFFF_FFFF else Step(Register(buf[..|buf| - 1]), buf[|buf| - 1])
  }

  /** The checksum: the register with the final xor 0xFFFFFFFF. */
  function Crc(buf: seq<Byte>): bv32
  {
    Register(buf) ^ 0xFFFF_FFFF
  }

  /** `crc32(buf)` with the table built by `MakeCrcTable`; `>>> 0` reads the register unsigned. */
  method Crc32(table: seq<bv32>, buf: seq<Byte>) returns (crc: nat)
    requires IsCrcTable(table)
    ensures crc == Crc(buf) as int && crc < TwoTo32
  {
    var c: bv32 := 0xFFFF_FFFF;
    var i := 0;
    while i < |buf|
      invariant 0 <= i <= |buf|
      invariant c == Register(buf[..i])
    {
      var idx := (c ^ (buf[i] as bv32)) & 0xFF;
      LoopStep(table, buf, i, c, idx);
      c := (c >> 8) ^ table[idx as int];
      i := i + 1;
    }
    assert buf[..i] == buf;
    FinalValue(buf, c);
    crc := (c ^ 0xFFFF_FFFF) as int;
  }

  /** A table index read back as an integer names the same entry. */
  lemma TableIndex(table: seq<bv32>, idx: bv32)
    requires IsCrcTable(table) && idx < 256
    ensures idx as int < 256 && table[idx as int] == TableEntry(idx)
  {
    assert (idx as int) as bv32 == idx;
  }

  /** The final xor of the register read as an unsigned 32-bit number is the checksum. */
  lemma FinalValue(buf: seq<Byte>, c: bv32)
    requires c == Register(buf)
    ensures (c ^ 0xFFFF_FFFF) as int == Crc(buf) as int && (c ^ 0xFFFF_FFFF) as int < TwoTo32
  {
  }

  /** One iteration of `crc32`'s loop extends the register by one byte. */
  lemma LoopStep(table: seq<bv32>, buf: seq<Byte>, i: nat, c: bv32, idx: bv32)
    requires IsCrcTable(table) && i < |buf| && c == Register(buf[..i])
    requires idx == (c ^ (buf[i] as bv32)) & 0xFF
    ensures idx as int < |table| && (c >> 8) ^ table[idx as int] == Register(buf[..i + 1])
  {
    TableStep(table, c, buf[i], idx);
    RegisterSnoc(buf, i);
  }

  /** One loop iteration through the table is one `Step`. */
  lemma TableStep(table: seq<bv32>, c: bv32, b: Byte, idx: bv32)
    requires IsCrcTable(table) && idx == (c ^ (b as bv32)) & 0xFF
    ensures idx as int < 256 && (c >> 8) ^ table[idx as int] == Step(c, b)
  {
    TableIndex(table, idx);
    StepBitsAt(c, b as bv32, idx);
  }

  lemma StepBitsAt(c: bv32, x: bv32, idx: bv32)
    requires idx == (c ^ x) & 0xFF
    ensures StepBits(c, x) == (c >> 8) ^ TableEntry(idx)
  {
  }

  lemma RegisterSnoc(buf: seq<Byte>, i: nat)
    requires i < |buf|
    ensures Register(buf[..i + 1]) == Step(Register(buf[..i]), buf[i])
  {
    assert buf[..i + 1][..i] == buf[..i];
  }

  /** The empty input has checksum 0 (initial value and final xor cancel). */
  lemma CrcOfEmpty()
    ensures Crc([]) == 0
  {
  }

  /** The check value of the 3-byte input "abc". */
  lemma CrcOfAbc()
    ensures Crc([97, 98, 99]) == 0x3524_41C2
  {
    var s: seq<Byte> := [97, 98, 99];
    assert TableEntry(0x9E) == 0x17B7_BE43;
    assert TableEntry(0xDE) == 0x616B_FFD3;
    assert TableEntry(0xF1) == 0xCABA_C28A;
    assert s[..0] == [] && s[..1][..0] == [];
    assert Register(s[..1]) == 0x1748_41BC;
    assert s[..2][..1] == s[..1];
    assert Register(s[..2]) == 0x617C_B792;
    assert s[..3][..2] == s[..2] && s[..3] == s;
    assert Register(s) == 0xCADB_BE3D;
  }
}
