/**
  The decoded fix: the `gps_data_read` record of main.c and the 15-byte image of it that
  `memcpy` places in `gps_buffer`.

  Layout assumption (the target compiler's ABI, stated here rather than derived): the three
  1-bit fields `status`, `north_not_south`, `east_not_west` occupy bits 0, 1, 2 of byte 0 and
  the 5 unused bits above them are zero; then one byte each for hour, minute, second, day, month,
  year, lat_deg, lat_minutes; lat_dec_minutes as two bytes, low byte first; lon_deg, lon_minutes;
  lon_dec_minutes as two bytes, low byte first. There is no padding.
*/
module FixRecord {
  import opened Bytes

  datatype Fix = Fix(
    status: bool,
    northNotSouth: bool,
    eastNotWest: bool,
    hour: Byte,
    minute: Byte,
    second: Byte,
    day: Byte,
    month: Byte,
    year: Byte,
    latDeg: Byte,
    latMinutes: Byte,
    latDecMinutes: Word,
    lonDeg: Byte,
    lonMinutes: Byte,
    lonDecMinutes: Word)

  /** The record after `memset(&gps_data, 0, sizeof(gps_data))`. */
  const Cleared: Fix := Fix(false, false, false, 0, 0, 0, 0, 0, 0, 0, 0, 0, 0, 0, 0)

  /** `sizeof(gps_data_read)` on the target. */
  const ImageSize: nat := 15

  function Bit(b: bool): Byte {
    if b then 1 else 0
  }

  /** Byte 0 of the image: the three flag bits, least significant first. */
  function FlagByte(f: Fix): (r: Byte)
    ensures r < 8
  {
    Bit(f.status) + 2 * Bit(f.northNotSouth) + 4 * Bit(f.eastNotWest)
  }

  /** The bytes `memcpy(gps_buffer, &gps_data, sizeof(gps_data))` copies, in memory order. */
  function Image(f: Fix): (r: seq<Byte>)
    ensures |r| == ImageSize
    ensures r[0] < 8
    ensures FromImage(r) == f
  {
    [FlagByte(f), f.hour, f.minute, f.second, f.day, f.month, f.year,
     f.latDeg, f.latMinutes, f.latDecMinutes % 256, f.latDecMinutes / 256,
     f.lonDeg, f.lonMinutes, f.lonDecMinutes % 256, f.lonDecMinutes / 256]
  }

  /** Reads a record back from its image, as a master reading `gps_buffer` would. */
  function FromImage(b: seq<Byte>): Fix
    requires |b| == ImageSize
  {
    Fix(b[0] % 2 == 1, b[0] / 2 % 2 == 1, b[0] / 4 % 2 == 1,
        b[1], b[2], b[3], b[4], b[5], b[6],
        b[7], b[8], b[9] + 256 * (b[10] as int),
        b[11], b[12], b[13] + 256 * (b[14] as int))
  }

  /** Every 15-byte image whose unused flag bits are zero is the image of exactly one record. */
  lemma ImageOfFromImage(b: seq<Byte>)
    requires |b| == ImageSize && b[0] < 8
    ensures Image(FromImage(b)) == b
  {
    var f := FromImage(b);
    assert FlagByte(f) == b[0];
    assert Image(f)[9] == b[9] && Image(f)[10] == b[10];
    assert Image(f)[13] == b[13] && Image(f)[14] == b[14];
  }

  lemma ImageInjective(f: Fix, g: Fix)
    requires Image(f) == Image(g)
    ensures f == g
  {
    assert FromImage(Image(f)) == FromImage(Image(g));
  }

  /** The cleared record images to fifteen zero bytes. */
  lemma ImageOfCleared()
    ensures Image(Cleared) == Zeros(ImageSize)
  {
    var z := Zeros(ImageSize);
    assert FromImage(z) == Cleared;
    ImageOfFromImage(z);
  }
}
