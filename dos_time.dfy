/**
 * MS-DOS date and time packing as the ZIP headers store them (section 4.4.6 of PKWARE's
 * APPNOTE.TXT). The clock is not read here: the caller passes the calendar fields of the
 * current local time.
 */
module DosTime {
  import opened Bytes

  /** The fields of a JavaScript `Date` that the packing reads; `month` is zero-based (`getMonth`). */
  datatype DateParts = DateParts(year: int, month: nat, day: nat, hours: nat, minutes: nat, seconds: nat)

  /**
   * The packed time: hours in bits 11-15, minutes in bits 5-10, seconds / 2 in bits 0-4.
   * Each field is masked first; for a non-negative value `v & (2^k - 1)` is `v % 2^k`, and
   * because the masked fields occupy disjoint bits the `|` of the shifted fields is their sum.
   */
  function PackTime(d: DateParts): (t: nat)
    ensures t < TwoTo16
  {
    (d.hours % 32) * 2048 + (d.minutes % 64) * 32 + (d.seconds / 2) % 32
  }

  /**
   * The packed date: years since 1980 in bits 9-15, month (one-based) in bits 5-8, day in
   * bits 0-4. `(year - 1980) & 0x7F` acts on the two's-complement pattern, which for a year
   * before 1980 is the Euclidean remainder mod 128, as Dafny's `%` computes it.
   */
  function PackDate(d: DateParts): (t: nat)
    ensures t < TwoTo16
  {
    ((d.year - 1980) % 128) * 512 + ((d.month + 1) % 16) * 32 + d.day % 32
  }

  /** A calendar time the format can hold exactly (apart from the odd second). */
  predicate InRange(d: DateParts)
  {
    1980 <= d.year < 1980 + 128 && d.month < 12 && 1 <= d.day <= 31
    && d.hours < 24 && d.minutes < 60 && d.seconds < 60
  }

  /** Reads hours, minutes and seconds back out of a packed time. */
  function UnpackTime(t: nat): (hms: (nat, nat, nat))
  {
    (t / 2048, (t / 32) % 64, (t % 32) * 2)
  }

  /** Reads the year, the zero-based month and the day back out of a packed date. */
  function UnpackDate(t: nat): (ymd: (int, int, nat))
  {
    (1980 + t / 512, (t / 32) % 16 - 1, t % 32)
  }

  /** Unpacking a packed time recovers hours and minutes, and the seconds rounded down to even. */
  lemma TimeRoundTrip(d: DateParts)
    requires InRange(d)
    ensures UnpackTime(PackTime(d)) == (d.hours, d.minutes, d.seconds - d.seconds % 2)
  {
    var t := PackTime(d);
    var h, m, s := d.hours, d.minutes, d.seconds / 2;
    var hm := h * 64 + m;
    assert t == hm * 32 + s;
    assert t / 32 == hm && t % 32 == s;
    assert hm / 64 == h && hm % 64 == m;
    assert t / 2048 == h;
  }

  /** Unpacking a packed date recovers the year, the month and the day. */
  lemma DateRoundTrip(d: DateParts)
    requires InRange(d)
    ensures UnpackDate(PackDate(d)) == (d.year, d.month as int, d.day)
  {
    var t := PackDate(d);
    var y, m, dd := d.year - 1980, d.month + 1, d.day;
    var ym := y * 16 + m;
    assert t == ym * 32 + dd;
    assert t / 32 == ym && t % 32 == dd;
    assert ym / 16 == y && ym % 16 == m;
    assert t / 512 == y;
  }

  /** Times in the same two-second slot pack to the same value. */
  lemma TimeIgnoresOddSecond(d: DateParts)
    requires d.seconds % 2 == 1
    ensures PackTime(d) == PackTime(d.(seconds := d.seconds - 1))
  {
    assert (d.seconds - 1) / 2 == d.seconds / 2;
  }
}
