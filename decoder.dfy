/**
  The sentence decoder `parseData` (main.c:67-165), as functions over the bytes it scans.

  The buffer is a zero-filled 256-byte array whose leading bytes are the sentence, so it is
  modelled as the sentence `s` with the total reader `At`, which yields 0 past the end of `s`.
  One iteration of the `while` loop is `Step`; the whole loop is `Run`. The method that runs the
  loop in place on `gps_data` is `Firmware.Bridge.ParseData`, proved against `Decode`.
*/
module Decoder {
  import opened Bytes
  import opened FixRecord

  /** One digit read, `(int)str[n++] - 48`, kept in an `unsigned char` local. */
  function Digit(c: Byte): Byte {
    UChar(c - DigitZero)
  }

  lemma DigitWraps(c: Byte)
    ensures Digit(c) == c - 48 + 256 * (if c < 48 then 1 else 0)
  {
  }

  /** A two-digit field, `tens*10 + ones`, stored in an `unsigned char` field of the record. */
  function TwoDigits(c1: Byte, c2: Byte): (r: Byte)
    ensures r == (10 * (c1 - 48) + (c2 - 48)) % 256
    ensures IsDigit(c1) && IsDigit(c2) ==> r == 10 * (c1 - 48) + (c2 - 48) <= 99
  {
    DigitWraps(c1);
    DigitWraps(c2);
    UCharShift(10 * (c1 - 48) + (c2 - 48), 10 * (if c1 < 48 then 1 else 0) + (if c2 < 48 then 1 else 0));
    UChar(Digit(c1) * 10 + Digit(c2))
  }

  /** The three-digit longitude degrees, `hundreds*100 + tens*10 + ones`, stored in an `unsigned char`. */
  function ThreeDigits(c1: Byte, c2: Byte, c3: Byte): (r: Byte)
    ensures r == (100 * (c1 - 48) + 10 * (c2 - 48) + (c3 - 48)) % 256
    ensures IsDigit(c1) && IsDigit(c2) && IsDigit(c3) && 100 * (c1 - 48) + 10 * (c2 - 48) + (c3 - 48) < 256
            ==> r == 100 * (c1 - 48) + 10 * (c2 - 48) + (c3 - 48)
  {
    DigitWraps(c1);
    DigitWraps(c2);
    DigitWraps(c3);
    UCharShift(100 * (c1 - 48) + 10 * (c2 - 48) + (c3 - 48),
               100 * (if c1 < 48 then 1 else 0) + 10 * (if c2 < 48 then 1 else 0) + (if c3 < 48 then 1 else 0));
    UChar(Digit(c1) * 100 + Digit(c2) * 10 + Digit(c3))
  }

  /**
    Decimal minutes: `(tens*10 + ones)*100` for the first digit pair, then `+= tens*10 + ones` for
    the second, in a 16-bit `unsigned int`. The digit pairs themselves are `int`s and are not reduced.
  */
  function DecimalMinutes(c1: Byte, c2: Byte, c3: Byte, c4: Byte): (r: Word)
    ensures r == (1000 * Digit(c1) + 100 * Digit(c2) + 10 * Digit(c3) + Digit(c4)) % 65536
    ensures IsDigit(c1) && IsDigit(c2) && IsDigit(c3) && IsDigit(c4)
            ==> r == 1000 * (c1 - 48) + 100 * (c2 - 48) + 10 * (c3 - 48) + (c4 - 48) <= 9999
  {
    var high := (Digit(c1) * 10 + Digit(c2)) * 100;
    var low := Digit(c3) * 10 + Digit(c4);
    assert high + low == 1000 * Digit(c1) + 100 * Digit(c2) + 10 * Digit(c3) + Digit(c4);
    assert UInt(high) == high + 65536 * (- (high / 65536));
    UIntShift(high + low, - (high / 65536));
    assert IsDigit(c1) && IsDigit(c2) && IsDigit(c3) && IsDigit(c4) ==>
      Digit(c1) == c1 - 48 && Digit(c2) == c2 - 48 && Digit(c3) == c3 - 48 && Digit(c4) == c4 - 48;
    UInt(UInt(high) + low)
  }

  /** The loop state of `parseData`: the index `n`, the comma counter `group` and `gps_data`. */
  datatype Cursor = Cursor(n: nat, group: nat, fix: Fix)

  /** The groups the `switch` of `parseData` decodes. */
  predicate Decodes(group: nat) {
    group in {1, 2, 3, 4, 5, 6, 9}
  }

  /** How many characters past the tested one the `switch` consumes in a group. */
  function FieldWidth(group: nat): (w: nat)
    ensures w > 0 <==> Decodes(group)
  {
    match group
    case 1 => 6
    case 2 => 1
    case 3 => 9
    case 4 => 1
    case 5 => 10
    case 6 => 1
    case 9 => 6
    case _ => 0
  }

  /** The record after the `switch` of `parseData` has read group `group` starting at byte `i`. */
  function Fields(s: seq<Byte>, i: nat, group: nat, f: Fix): (r: Fix)
    ensures !Decodes(group) ==> r == f
    ensures group != 1 ==> r.hour == f.hour && r.minute == f.minute && r.second == f.second
    ensures group != 2 ==> r.status == f.status
    ensures group != 3 ==> r.latDeg == f.latDeg && r.latMinutes == f.latMinutes && r.latDecMinutes == f.latDecMinutes
    ensures group != 4 ==> r.northNotSouth == f.northNotSouth
    ensures group != 5 ==> r.lonDeg == f.lonDeg && r.lonMinutes == f.lonMinutes && r.lonDecMinutes == f.lonDecMinutes
    ensures group != 6 ==> r.eastNotWest == f.eastNotWest
    ensures group != 9 ==> r.day == f.day && r.month == f.month && r.year == f.year
  {
    match group
    case 1 =>
      f.(hour := TwoDigits(At(s, i), At(s, i + 1)),
         minute := TwoDigits(At(s, i + 2), At(s, i + 3)),
         second := TwoDigits(At(s, i + 4), At(s, i + 5)))
    case 2 =>
      f.(status := At(s, i) == LetterA)
    case 3 =>
      f.(latDeg := TwoDigits(At(s, i), At(s, i + 1)),
         latMinutes := TwoDigits(At(s, i + 2), At(s, i + 3)),
         latDecMinutes := DecimalMinutes(At(s, i + 5), At(s, i + 6), At(s, i + 7), At(s, i + 8)))
    case 4 =>
      f.(northNotSouth := At(s, i) == LetterN)
    case 5 =>
      f.(lonDeg := ThreeDigits(At(s, i), At(s, i + 1), At(s, i + 2)),
         lonMinutes := TwoDigits(At(s, i + 3), At(s, i + 4)),
         lonDecMinutes := DecimalMinutes(At(s, i + 6), At(s, i + 7), At(s, i + 8), At(s, i + 9)))
    case 6 =>
      f.(eastNotWest := At(s, i) == LetterE)
    case 9 =>
      f.(day := TwoDigits(At(s, i), At(s, i + 1)),
         month := TwoDigits(At(s, i + 2), At(s, i + 3)),
         year := TwoDigits(At(s, i + 4), At(s, i + 5)))
    case _ => f
  }

  /**
    One iteration of the `while` loop: test byte `n` for a comma and step past it, then run the
    `switch` on the (possibly incremented) group. The switch runs on every iteration, not only
    after a comma.
  */
  function Step(s: seq<Byte>, c: Cursor): (r: Cursor)
    ensures r.n > c.n
  {
    var group := if At(s, c.n) == Comma then c.group + 1 else c.group;
    Cursor(c.n + 1 + FieldWidth(group), group, Fields(s, c.n + 1, group, c.fix))
  }

  /**
    The `while (str[n] != '\0')` loop. It ends because every step moves `n` forward and every
    byte past the end of `s` reads as 0.
  */
  function Run(s: seq<Byte>, c: Cursor): (r: Cursor)
    ensures At(s, r.n) == Nul
    ensures r.n >= c.n && r.group >= c.group
    decreases |s| - c.n
  {
    if At(s, c.n) == Nul then c else Run(s, Step(s, c))
  }

  /**
    `gps_data` after the loop of `parseData(s)` has run on the previous contents `g`, starting
    with `n` and `group` at 0. An empty sentence leaves the record as it was.
  */
  function Decode(s: seq<Byte>, g: Fix): (r: Fix)
    ensures At(s, 0) == Nul ==> r == g
  {
    Run(s, Cursor(0, 0, g)).fix
  }

  // ---------------------------------------------------------------------------------------
  // One iteration

  /** The group rises by one exactly when the tested byte is a comma, and the switch consumes its width. */
  lemma StepCountsCommas(s: seq<Byte>, c: Cursor)
    ensures Step(s, c).group == c.group + (if At(s, c.n) == Comma then 1 else 0)
    ensures Step(s, c).n == c.n + 1 + FieldWidth(Step(s, c).group)
  {
  }

  /** An iteration whose group is not decoded leaves the record alone and advances by one byte. */
  lemma StepOutsideFields(s: seq<Byte>, c: Cursor)
    requires !Decodes(Step(s, c).group)
    ensures Step(s, c).fix == c.fix && Step(s, c).n == c.n + 1
  {
  }

  /** The three flags are set exactly when the byte read is 'A', 'N' or 'E', and cleared otherwise. */
  lemma StepFlags(s: seq<Byte>, c: Cursor)
    ensures var r := Step(s, c);
      && (r.group == 2 ==> (r.fix.status <==> At(s, c.n + 1) == LetterA) && r.fix.(status := c.fix.status) == c.fix)
      && (r.group == 4 ==> (r.fix.northNotSouth <==> At(s, c.n + 1) == LetterN) && r.fix.(northNotSouth := c.fix.northNotSouth) == c.fix)
      && (r.group == 6 ==> (r.fix.eastNotWest <==> At(s, c.n + 1) == LetterE) && r.fix.(eastNotWest := c.fix.eastNotWest) == c.fix)
  {
  }

  // ---------------------------------------------------------------------------------------
  // Whole runs

  /** Once the comma count is past the date group, nothing more is decoded. */
  lemma {:induction false} RunPastDateKeepsFix(s: seq<Byte>, c: Cursor)
    requires c.group >= 10
    ensures Run(s, c).fix == c.fix
    decreases |s| - c.n
  {
    if At(s, c.n) != Nul {
      RunPastDateKeepsFix(s, Step(s, c));
    }
  }

  /** `s[i..j]` holds neither a comma nor a NUL. */
  ghost predicate Plain(s: seq<Byte>, i: nat, j: nat)
    requires i <= j <= |s|
  {
    forall k :: i <= k < j ==> s[k] != Comma && s[k] != Nul
  }

  /** In a group that is not decoded, a run of plain bytes is scanned one byte per iteration. */
  lemma {:induction false} SkipPlain(s: seq<Byte>, i: nat, j: nat, group: nat, f: Fix)
    requires i <= j <= |s| && Plain(s, i, j) && !Decodes(group)
    ensures Run(s, Cursor(i, group, f)) == Run(s, Cursor(j, group, f))
    decreases j - i
  {
    if i < j {
      assert Step(s, Cursor(i, group, f)) == Cursor(i + 1, group, f);
      SkipPlain(s, i + 1, j, group, f);
    }
  }

  /** A sentence without any comma decodes nothing: the previous record is kept whole. */
  lemma DecodeWithoutCommaKeepsFix(s: seq<Byte>, g: Fix)
    requires forall k :: 0 <= k < |s| ==> s[k] != Comma
    ensures Decode(s, g) == g
  {
    var j := 0;
    while j < |s| && s[j] != Nul
      invariant j <= |s| && Plain(s, 0, j)
    {
      j := j + 1;
    }
    SkipPlain(s, 0, j, 0, g);
  }

  /**
    The layout under which the loop decodes each field once, as meant: a header of `h` plain bytes;
    then, each opened by a comma, time (6 bytes), status (1), latitude (9), hemisphere (1),
    longitude (10), hemisphere (1), two plain fields of `a` and `b` bytes, and the date (6). Every
    decoded field is followed directly by the next comma, and after the date the sentence ends
    or a comma follows.
  */
  ghost predicate WellFormed(s: seq<Byte>, h: nat, a: nat, b: nat) {
    && h + 43 + a + b <= |s|
    && Plain(s, 0, h)
    && Plain(s, h + 35, h + 35 + a)
    && Plain(s, h + 36 + a, h + 36 + a + b)
    && s[h] == Comma && s[h + 7] == Comma && s[h + 9] == Comma && s[h + 19] == Comma
    && s[h + 21] == Comma && s[h + 32] == Comma && s[h + 34] == Comma
    && s[h + 35 + a] == Comma && s[h + 36 + a + b] == Comma
    && (At(s, h + 43 + a + b) == Nul || At(s, h + 43 + a + b) == Comma)
  }

  /** The record a field-by-field reading of a well-formed sentence gives. */
  ghost function Intended(s: seq<Byte>, h: nat, a: nat, b: nat): Fix
    requires WellFormed(s, h, a, b)
  {
    var d := h + 37 + a + b;
    Fix(status := s[h + 8] == LetterA,
        northNotSouth := s[h + 20] == LetterN,
        eastNotWest := s[h + 33] == LetterE,
        hour := TwoDigits(s[h + 1], s[h + 2]),
        minute := TwoDigits(s[h + 3], s[h + 4]),
        second := TwoDigits(s[h + 5], s[h + 6]),
        day := TwoDigits(s[d], s[d + 1]),
        month := TwoDigits(s[d + 2], s[d + 3]),
        year := TwoDigits(s[d + 4], s[d + 5]),
        latDeg := TwoDigits(s[h + 10], s[h + 11]),
        latMinutes := TwoDigits(s[h + 12], s[h + 13]),
        latDecMinutes := DecimalMinutes(s[h + 15], s[h + 16], s[h + 17], s[h + 18]),
        lonDeg := ThreeDigits(s[h + 22], s[h + 23], s[h + 24]),
        lonMinutes := TwoDigits(s[h + 25], s[h + 26]),
        lonDecMinutes := DecimalMinutes(s[h + 28], s[h + 29], s[h + 30], s[h + 31]))
  }

  /** An iteration that reads a comma opens the next group and runs its case of the `switch`. */
  lemma RunComma(s: seq<Byte>, n: nat, group: nat, f: Fix)
    requires At(s, n) == Comma
    ensures Run(s, Cursor(n, group, f))
         == Run(s, Cursor(n + 1 + FieldWidth(group + 1), group + 1, Fields(s, n + 1, group + 1, f)))
  {
  }

  /**
    A well-formed sentence decodes to the field-by-field reading, whatever the record held before:
    every field is overwritten and the comma count never drifts.
  */
  lemma DecodeWellFormed(s: seq<Byte>, h: nat, a: nat, b: nat, g: Fix)
    requires WellFormed(s, h, a, b)
    ensures Decode(s, g) == Intended(s, h, a, b)
  {
    var f3 := Fields(s, h + 10, 3, Fields(s, h + 8, 2, Fields(s, h + 1, 1, g)));
    var f6 := Fields(s, h + 33, 6, Fields(s, h + 22, 5, Fields(s, h + 20, 4, f3)));
    SkipPlain(s, 0, h, 0, g);
    WellFormedTimeToLatitude(s, h, a, b, g);
    WellFormedHemisphereToLongitude(s, h, a, b, f3);
    WellFormedDate(s, h, a, b, f6);
    WellFormedFields(s, h, a, b, g);
  }

  lemma WellFormedTimeToLatitude(s: seq<Byte>, h: nat, a: nat, b: nat, g: Fix)
    requires WellFormed(s, h, a, b)
    ensures Run(s, Cursor(h, 0, g))
         == Run(s, Cursor(h + 19, 3, Fields(s, h + 10, 3, Fields(s, h + 8, 2, Fields(s, h + 1, 1, g)))))
  {
    var f1 := Fields(s, h + 1, 1, g);
    var f2 := Fields(s, h + 8, 2, f1);
    RunComma(s, h, 0, g);
    RunComma(s, h + 7, 1, f1);
    RunComma(s, h + 9, 2, f2);
  }

  lemma WellFormedHemisphereToLongitude(s: seq<Byte>, h: nat, a: nat, b: nat, f: Fix)
    requires WellFormed(s, h, a, b)
    ensures Run(s, Cursor(h + 19, 3, f))
         == Run(s, Cursor(h + 34, 6, Fields(s, h + 33, 6, Fields(s, h + 22, 5, Fields(s, h + 20, 4, f)))))
  {
    var f4 := Fields(s, h + 20, 4, f);
    var f5 := Fields(s, h + 22, 5, f4);
    RunComma(s, h + 19, 3, f);
    RunComma(s, h + 21, 4, f4);
    RunComma(s, h + 32, 5, f5);
  }

  lemma WellFormedDate(s: seq<Byte>, h: nat, a: nat, b: nat, f: Fix)
    requires WellFormed(s, h, a, b)
    ensures Run(s, Cursor(h + 34, 6, f)).fix == Fields(s, h + 37 + a + b, 9, f)
  {
    var e := h + 43 + a + b;
    var f9 := Fields(s, h + 37 + a + b, 9, f);
    WellFormedPlainGroups(s, h, a, b, f);
    WellFormedDateGroup(s, h, a, b, f);
    WellFormedEnd(s, e, f9);
  }

  lemma WellFormedPlainGroups(s: seq<Byte>, h: nat, a: nat, b: nat, f: Fix)
    requires WellFormed(s, h, a, b)
    ensures Run(s, Cursor(h + 34, 6, f)) == Run(s, Cursor(h + 36 + a, 8, f))
  {
    RunComma(s, h + 34, 6, f);
    SkipPlain(s, h + 35, h + 35 + a, 7, f);
    RunComma(s, h + 35 + a, 7, f);
  }

  lemma WellFormedEnd(s: seq<Byte>, e: nat, f: Fix)
    requires At(s, e) == Nul || At(s, e) == Comma
    ensures Run(s, Cursor(e, 9, f)).fix == f
  {
    if At(s, e) == Comma {
      RunComma(s, e, 9, f);
      RunPastDateKeepsFix(s, Cursor(e + 1, 10, f));
    }
  }

  lemma WellFormedDateGroup(s: seq<Byte>, h: nat, a: nat, b: nat, f: Fix)
    requires WellFormed(s, h, a, b)
    ensures Run(s, Cursor(h + 36 + a, 8, f))
         == Run(s, Cursor(h + 43 + a + b, 9, Fields(s, h + 37 + a + b, 9, f)))
  {
    SkipPlain(s, h + 36 + a, h + 36 + a + b, 8, f);
    RunComma(s, h + 36 + a + b, 8, f);
  }

  lemma WellFormedFields(s: seq<Byte>, h: nat, a: nat, b: nat, g: Fix)
    requires WellFormed(s, h, a, b)
    ensures
      var f1 := Fields(s, h + 1, 1, g);
      var f2 := Fields(s, h + 8, 2, f1);
      var f3 := Fields(s, h + 10, 3, f2);
      var f4 := Fields(s, h + 20, 4, f3);
      var f5 := Fields(s, h + 22, 5, f4);
      var f6 := Fields(s, h + 33, 6, f5);
      Fields(s, h + 37 + a + b, 9, f6) == Intended(s, h, a, b)
  {
  }

  // ---------------------------------------------------------------------------------------
  // The built-in sentence

  /**
    The constant `rmc` (main.c:54) that the UART handler copies into the zero-filled
    `print_buffer` and decodes:
    "PC,555555.000,A,4042.6142,N,07400.4168,W,2.03,221.11,160412,,,A*77\r\n".
  */
  const Rmc: seq<Byte> :=
    [80, 67, 44] + [53, 53, 53, 53, 53, 53, 46, 48, 48, 48, 44] + [65, 44]
    + [52, 48, 52, 50, 46, 54, 49, 52, 50, 44] + [78, 44]
    + [48, 55, 52, 48, 48, 46, 52, 49, 54, 56, 44] + [87, 44] + [50, 46, 48, 51, 44]
    + [50, 50, 49, 46, 49, 49, 44] + [49, 54, 48, 52, 49, 50, 44] + [44, 44, 65, 42, 55, 55, 13, 10]

  /**
    The built-in sentence is 68 bytes, none of them NUL, so the terminator `sprintf` writes after
    it is at byte 68 of the zero-filled buffer. Its commas are at bytes 2, 13, 15, 25, 27, 38, 40,
    45, 52, 59, 60 and 61.
  */
  lemma RmcLayout()
    ensures |Rmc| == 68 && At(Rmc, 68) == Nul
    ensures forall i :: 0 <= i < |Rmc| ==> Rmc[i] != Nul
    ensures forall i :: 0 <= i < |Rmc| ==> (Rmc[i] == Comma <==> i in {2, 13, 15, 25, 27, 38, 40, 45, 52, 59, 60, 61})
  {
  }

  /**
    Decoding the built-in sentence: its time field "555555.000" is not followed directly by a
    comma, so group 1 is decoded again and again, each pass swallowing whatever commas it reads,
    until the loop stops past the end of the sentence. Only hour, minute and second change, to
    values read from the last bytes and the zero fill; every other field keeps its previous value.
  */
  lemma DecodeRmc(g: Fix)
    ensures Decode(Rmc, g) == g.(hour := 124, minute := 240, second := 240)
  {
    RmcRun(0, g);
  }

  /** The loop state after `k` iterations over the built-in sentence, starting from record `g`. */
  function RmcCursor(k: nat, g: Fix): Cursor
    requires k <= 12
  {
    match k
    case 0 => Cursor(0, 0, g)
    case 1 => Cursor(1, 0, g)
    case 2 => Cursor(2, 0, g)
    case 3 => Cursor(9, 1, g.(hour := 55, minute := 55, second := 55))
    case 4 => Cursor(16, 1, g.(hour := 0, minute := 252, second := 166))
    case 5 => Cursor(23, 1, g.(hour := 4, minute := 18, second := 61))
    case 6 => Cursor(30, 1, g.(hour := 16, minute := 40, second := 7))
    case 7 => Cursor(37, 1, g.(hour := 0, minute := 240, second := 16))
    case 8 => Cursor(44, 1, g.(hour := 255, minute := 218, second := 236))
    case 9 => Cursor(51, 1, g.(hour := 218, minute := 21, second := 237))
    case 10 => Cursor(58, 1, g.(hour := 217, minute := 60, second := 41))
    case 11 => Cursor(65, 1, g.(hour := 212, minute := 233, second := 203))
    case _ => Cursor(72, 1, g.(hour := 124, minute := 240, second := 240))
  }

  lemma RmcStep(k: nat, g: Fix)
    requires k < 12
    ensures At(Rmc, RmcCursor(k, g).n) != Nul
    ensures Step(Rmc, RmcCursor(k, g)) == RmcCursor(k + 1, g)
  {
    match k
    case 0 => RmcStep0(g);
    case 1 => RmcStep1(g);
    case 2 => RmcStep2(g);
    case 3 => RmcStep3(g);
    case 4 => RmcStep4(g);
    case 5 => RmcStep5(g);
    case 6 => RmcStep6(g);
    case 7 => RmcStep7(g);
    case 8 => RmcStep8(g);
    case 9 => RmcStep9(g);
    case 10 => RmcStep10(g);
    case 11 => RmcStep11(g);
  }

  lemma RmcStep0(g: Fix)
    ensures At(Rmc, RmcCursor(0, g).n) != Nul
    ensures Step(Rmc, RmcCursor(0, g)) == RmcCursor(1, g)
  {
  }

  lemma RmcStep1(g: Fix)
    ensures At(Rmc, RmcCursor(1, g).n) != Nul
    ensures Step(Rmc, RmcCursor(1, g)) == RmcCursor(2, g)
  {
  }

  lemma RmcStep2(g: Fix)
    ensures At(Rmc, RmcCursor(2, g).n) != Nul
    ensures Step(Rmc, RmcCursor(2, g)) == RmcCursor(3, g)
  {
  }

  lemma RmcStep3(g: Fix)
    ensures At(Rmc, RmcCursor(3, g).n) != Nul
    ensures Step(Rmc, RmcCursor(3, g)) == RmcCursor(4, g)
  {
  }

  lemma RmcStep4(g: Fix)
    ensures At(Rmc, RmcCursor(4, g).n) != Nul
    ensures Step(Rmc, RmcCursor(4, g)) == RmcCursor(5, g)
  {
  }

  lemma RmcStep5(g: Fix)
    ensures At(Rmc, RmcCursor(5, g).n) != Nul
    ensures Step(Rmc, RmcCursor(5, g)) == RmcCursor(6, g)
  {
  }

  lemma RmcStep6(g: Fix)
    ensures At(Rmc, RmcCursor(6, g).n) != Nul
    ensures Step(Rmc, RmcCursor(6, g)) == RmcCursor(7, g)
  {
  }

  lemma RmcStep7(g: Fix)
    ensures At(Rmc, RmcCursor(7, g).n) != Nul
    ensures Step(Rmc, RmcCursor(7, g)) == RmcCursor(8, g)
  {
  }

  lemma RmcStep8(g: Fix)
    ensures At(Rmc, RmcCursor(8, g).n) != Nul
    ensures Step(Rmc, RmcCursor(8, g)) == RmcCursor(9, g)
  {
  }

  lemma RmcStep9(g: Fix)
    ensures At(Rmc, RmcCursor(9, g).n) != Nul
    ensures Step(Rmc, RmcCursor(9, g)) == RmcCursor(10, g)
  {
  }

  lemma RmcStep10(g: Fix)
    ensures At(Rmc, RmcCursor(10, g).n) != Nul
    ensures Step(Rmc, RmcCursor(10, g)) == RmcCursor(11, g)
  {
  }

  lemma RmcStep11(g: Fix)
    ensures At(Rmc, RmcCursor(11, g).n) != Nul
    ensures Step(Rmc, RmcCursor(11, g)) == RmcCursor(12, g)
  {
  }

  lemma {:induction false} RmcRun(k: nat, g: Fix)
    requires k <= 12
    ensures Run(Rmc, RmcCursor(k, g)) == RmcCursor(12, g)
    decreases 12 - k
  {
    if k < 12 {
      RmcStep(k, g);
      RmcRun(k + 1, g);
    } else {
      assert At(Rmc, 72) == Nul;
    }
  }
}
