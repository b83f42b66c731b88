/**
 * The FAT timestamp the file system stamps on files: a 32-bit word holding the date in
 * the high half and the time in the low half, in the date and time layout of the
 * Microsoft FAT32 File System Specification (directory entry "Date and Time Formats").
 */
module FatTime {
  /** The field widths: years since 1980, month, day, hours, minutes, seconds halved. */
  predicate Fits(year: bv32, month: bv32, day: bv32, hour: bv32, minute: bv32, sec2: bv32) {
    year < 128 && month < 16 && day < 32 && hour < 32 && minute < 64 && sec2 < 32
  }

  /** Bits 31-25 year, 24-21 month, 20-16 day, 15-11 hour, 10-5 minute, 4-0 seconds / 2. */
  function Pack(year: bv32, month: bv32, day: bv32, hour: bv32, minute: bv32, sec2: bv32): bv32 {
    (year << 25) | (month << 21) | (day << 16) | (hour << 11) | (minute << 5) | sec2
  }

  // One lemma per field keeps each bit-vector query small.

  lemma PackYear(year: bv32, month: bv32, day: bv32, hour: bv32, minute: bv32, sec2: bv32)
    requires Fits(year, month, day, hour, minute, sec2)
    ensures Pack(year, month, day, hour, minute, sec2) >> 25 == year
  {
  }

  lemma PackMonth(year: bv32, month: bv32, day: bv32, hour: bv32, minute: bv32, sec2: bv32)
    requires Fits(year, month, day, hour, minute, sec2)
    ensures (Pack(year, month, day, hour, minute, sec2) >> 21) & 0xF == month
  {
  }

  lemma PackDay(year: bv32, month: bv32, day: bv32, hour: bv32, minute: bv32, sec2: bv32)
    requires Fits(year, month, day, hour, minute, sec2)
    ensures (Pack(year, month, day, hour, minute, sec2) >> 16) & 0x1F == day
  {
  }

  lemma PackHour(year: bv32, month: bv32, day: bv32, hour: bv32, minute: bv32, sec2: bv32)
    requires Fits(year, month, day, hour, minute, sec2)
    ensures (Pack(year, month, day, hour, minute, sec2) >> 11) & 0x1F == hour
  {
  }

  lemma PackMinute(year: bv32, month: bv32, day: bv32, hour: bv32, minute: bv32, sec2: bv32)
    requires Fits(year, month, day, hour, minute, sec2)
    ensures (Pack(year, month, day, hour, minute, sec2) >> 5) & 0x3F == minute
  {
  }

  lemma PackSeconds(year: bv32, month: bv32, day: bv32, hour: bv32, minute: bv32, sec2: bv32)
    requires Fits(year, month, day, hour, minute, sec2)
    ensures Pack(year, month, day, hour, minute, sec2) & 0x1F == sec2
  {
  }

  lemma PackIsSum(year: bv32, month: bv32, day: bv32, hour: bv32, minute: bv32, sec2: bv32)
    requires Fits(year, month, day, hour, minute, sec2)
    ensures Pack(year, month, day, hour, minute, sec2) ==
      (year << 25) + (month << 21) + (day << 16) + (hour << 11) + (minute << 5) + sec2
  {
  }

  /** Fields that fit their widths are read back unchanged, and the OR adds them without carries. */
  lemma PackFields(year: bv32, month: bv32, day: bv32, hour: bv32, minute: bv32, sec2: bv32)
    requires Fits(year, month, day, hour, minute, sec2)
    ensures var t := Pack(year, month, day, hour, minute, sec2);
      t >> 25 == year && (t >> 21) & 0xF == month && (t >> 16) & 0x1F == day &&
      (t >> 11) & 0x1F == hour && (t >> 5) & 0x3F == minute && t & 0x1F == sec2
    ensures Pack(year, month, day, hour, minute, sec2) ==
      (year << 25) + (month << 21) + (day << 16) + (hour << 11) + (minute << 5) + sec2
  {
    PackYear(year, month, day, hour, minute, sec2);
    PackMonth(year, month, day, hour, minute, sec2);
    PackDay(year, month, day, hour, minute, sec2);
    PackHour(year, month, day, hour, minute, sec2);
    PackMinute(year, month, day, hour, minute, sec2);
    PackSeconds(year, month, day, hour, minute, sec2);
    PackIsSum(year, month, day, hour, minute, sec2);
  }

  /** `get_fattime`: a fixed stamp, 3 June 2024 at 12:00:00. */
  function GetFatTime(): (t: bv32)
    ensures t == Pack(2024 - 1980, 6, 3, 12, 0, 0)
  {
    ((2024 - 1980) as bv32 << 25) | (6 as bv32 << 21) | (3 as bv32 << 16) | (12 as bv32 << 11)
      | (0 as bv32 << 5) | (0 as bv32 >> 1)
  }

  /** The stamp decodes to year 2024, month 6, day 3, 12 o'clock, minute and second 0. */
  lemma FatTimeDecodes()
    ensures var t := GetFatTime();
      1980 + (t >> 25) as int == 2024 && (t >> 21) & 0xF == 6 && (t >> 16) & 0x1F == 3 &&
      (t >> 11) & 0x1F == 12 && (t >> 5) & 0x3F == 0 && t & 0x1F == 0 && t == 0x58C3_6000
  {
    PackFields(2024 - 1980, 6, 3, 12, 0, 0);
  }
}
