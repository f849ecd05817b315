/** The GM1356 report formats: the CONFIGURE and CAPTURE requests the reader sends,
    and the measurement report the meter answers a CAPTURE with. */
module Codec {
  import opened Hid

  const CommandCapture: bv8 := 0xb3
  const CommandConfigure: bv8 := 0x56

  const FastMode: bv8 := 0x40
  const MeasureDbc: bv8 := 0x10
  const RangeMask: bv8 := 0xf

  /** The highest range code the meter knows (80-130 dB); codes 0 to 4 are the five bands. */
  const MaxRange: bv8 := 0x4
  const Range50To100Code: bv8 := 0x2

  /** Display names of the five bands, indexed by range code. */
  const RangeNames: seq<string> := ["30-130 dB", "30-80 dB", "50-100 dB", "60-110 dB", "80-130 dB"]

  datatype RangeCode = Range30To130 | Range30To80 | Range50To100 | Range60To110 | Range80To130 | UnknownRange

  /** The five bands, indexed by range code. */
  const RangeCodes: seq<RangeCode> := [Range30To130, Range30To80, Range50To100, Range60To110, Range80To130]

  /** The flags byte: byte 1 of a CONFIGURE request, byte 2 of a measurement report. */
  datatype Flags = Flags(range: bv8, fast: bool, dbc: bool)

  /** Byte 1 of the CONFIGURE request: the range code or-ed with the mode bits. */
  function ConfigureFlags(range: bv8, fast: bool, dbc: bool): bv8
    requires range <= MaxRange
  {
    var withRange := 0 | range;
    var withFast := if fast then withRange | FastMode else withRange;
    if dbc then withFast | MeasureDbc else withFast
  }

  /** The three parts of the CONFIGURE flags byte occupy disjoint bits, so the byte is
      their sum and no other bit is set. */
  lemma ConfigureFlagsMeaning(range: bv8, fast: bool, dbc: bool)
    requires range <= MaxRange
    ensures ConfigureFlags(range, fast, dbc) as int == range as int + (if fast then 64 else 0) + (if dbc then 16 else 0)
    ensures ConfigureFlags(range, fast, dbc) & !(RangeMask | FastMode | MeasureDbc) == 0
  {
  }

  /** The fields of a flags byte, read with the masks the reader uses. */
  function ParseFlags(flags: bv8): Flags
  {
    Flags(flags & RangeMask, flags & FastMode != 0, flags & MeasureDbc != 0)
  }

  /** The range is the low four bits of the flags byte, fast mode is bit 6 and
      C-weighting is bit 4. */
  lemma ParseFlagsMeaning(flags: bv8)
    ensures ParseFlags(flags).range as int == flags as int % 16
    ensures ParseFlags(flags).fast <==> (flags as int / 64) % 2 == 1
    ensures ParseFlags(flags).dbc <==> (flags as int / 16) % 2 == 1
  {
    LowNibble(flags);
    FastBit(flags);
    DbcBit(flags);
  }

  lemma LowNibble(b: bv8) ensures (b & RangeMask) as int == b as int % 16 {}
  lemma FastBit(b: bv8) ensures b & FastMode != 0 <==> (b as int / 64) % 2 == 1 {}
  lemma DbcBit(b: bv8) ensures b & MeasureDbc != 0 <==> (b as int / 16) % 2 == 1 {}

  /** The CONFIGURE flags byte decodes back to the configuration it was built from. */
  lemma ConfigureFlagsRoundTrip(range: bv8, fast: bool, dbc: bool)
    requires range <= MaxRange
    ensures ParseFlags(ConfigureFlags(range, fast, dbc)) == Flags(range, fast, dbc)
  {
  }

  /** Distinct configurations give distinct CONFIGURE flags bytes. */
  lemma ConfigureFlagsInjective(r1: bv8, f1: bool, d1: bool, r2: bv8, f2: bool, d2: bool)
    requires r1 <= MaxRange && r2 <= MaxRange
    requires ConfigureFlags(r1, f1, d1) == ConfigureFlags(r2, f2, d2)
    ensures r1 == r2 && f1 == f2 && d1 == d2
  {
    ConfigureFlagsRoundTrip(r1, f1, d1);
    ConfigureFlagsRoundTrip(r2, f2, d2);
  }

  /** The CONFIGURE request: opcode, flags, then zero bytes. */
  function ConfigureReport(range: bv8, fast: bool, dbc: bool): (r: seq<bv8>)
    requires range <= MaxRange
  {
    [CommandConfigure, ConfigureFlags(range, fast, dbc), 0, 0, 0, 0, 0, 0]
  }

  /** The CAPTURE request: opcode followed by zero bytes. */
  function CaptureReport(): (r: seq<bv8>)
  {
    [CommandCapture, 0, 0, 0, 0, 0, 0, 0]
  }

  /** The two requests are told apart by their first byte. */
  lemma RequestsDistinct(range: bv8, fast: bool, dbc: bool)
    requires range <= MaxRange
    ensures |ConfigureReport(range, fast, dbc)| == ReportLen && |CaptureReport()| == ReportLen
    ensures ConfigureReport(range, fast, dbc)[0] == CommandConfigure
    ensures CaptureReport()[0] == CommandCapture
    ensures ConfigureReport(range, fast, dbc) != CaptureReport()
  {
    assert ConfigureReport(range, fast, dbc)[0] != CaptureReport()[0];
  }

  /** The request the reader sends at start-up (50-100 dB, fast, A-weighted). */
  lemma DefaultConfigureBytes()
    ensures ConfigureReport(Range50To100Code, true, false) == [0x56, 0x42, 0, 0, 0, 0, 0, 0]
  {
  }

  /** The range code of a measurement: a guarded lookup that never indexes past the table. */
  function DecodeRange(nibble: bv8): (c: RangeCode)
    ensures c == UnknownRange <==> nibble > MaxRange
    ensures c != UnknownRange ==> RangeCodes[nibble as int] == c
  {
    if nibble > MaxRange then UnknownRange else RangeCodes[nibble]
  }

  /** The range text the reader prints: "UNKNOWN" above code 4, else the table entry. */
  function RangeLabel(range: bv8): (text: string)
    ensures text == "UNKNOWN" <==> range > MaxRange
    ensures range <= MaxRange ==> text in RangeNames
  {
    if range > MaxRange then "UNKNOWN" else RangeNames[range]
  }

  /** The name of each band, keyed by the band itself. */
  function BandName(c: RangeCode): string
  {
    match c
    case Range30To130 => "30-130 dB"
    case Range30To80 => "30-80 dB"
    case Range50To100 => "50-100 dB"
    case Range60To110 => "60-110 dB"
    case Range80To130 => "80-130 dB"
    case UnknownRange => "UNKNOWN"
  }

  /** The printed range text names exactly the band the range value decodes to. */
  lemma RangeLabelNamesBand(range: bv8)
    ensures RangeLabel(range) == BandName(DecodeRange(range))
  {
    if range <= MaxRange {
      assert range == 0 || range == 1 || range == 2 || range == 3 || range == 4;
    }
  }

  /** Each of the sixteen four-bit range values decodes to a band for 0 to 4, each to a
      different one, and to UnknownRange for 5 to 15; the label agrees with the code. */
  lemma RangeDecodeTotal(n1: bv8, n2: bv8)
    requires n1 <= RangeMask && n2 <= RangeMask
    ensures DecodeRange(n1) == UnknownRange <==> 5 <= n1 as int <= 15
    ensures DecodeRange(n1) != UnknownRange && DecodeRange(n1) == DecodeRange(n2) ==> n1 == n2
    ensures RangeLabel(n1) == "UNKNOWN" <==> DecodeRange(n1) == UnknownRange
  {
  }

  /** A decoded measurement report. level is in tenths of a decibel. */
  datatype Measurement = Measurement(level: nat, dbc: bool, fast: bool, range: RangeCode)

  /** The level of a report, computed as the reader does: byte 0 shifted up by eight
      bits, or-ed with byte 1. */
  function Level(hi: bv8, lo: bv8): nat
  {
    ((hi as bv16 << 8) | lo as bv16) as int
  }

  /** The level is the big-endian 16-bit value of the two bytes. */
  lemma LevelBigEndian(hi: bv8, lo: bv8)
    ensures Level(hi, lo) == hi as int * 256 + lo as int
    ensures Level(hi, lo) < 0x1_0000
  {
  }

  /** Decoding a measurement report is total: every 8-byte report gives a measurement. */
  function Decode(report: seq<bv8>): Measurement
    requires |report| == ReportLen
  {
    var flags := ParseFlags(report[2]);
    Measurement(Level(report[0], report[1]), flags.dbc, flags.fast, DecodeRange(flags.range))
  }

  /** What each field of a decoded report is, in terms of the report's bytes. */
  lemma DecodeMeaning(report: seq<bv8>)
    requires |report| == ReportLen
    ensures Decode(report).level == report[0] as int * 256 + report[1] as int
    ensures Decode(report).fast <==> (report[2] as int / 64) % 2 == 1
    ensures Decode(report).dbc <==> (report[2] as int / 16) % 2 == 1
    ensures Decode(report).range == UnknownRange <==> report[2] as int % 16 > 4
  {
    LevelBigEndian(report[0], report[1]);
    ParseFlagsMeaning(report[2]);
  }

  /** A report carrying a level and a CONFIGURE-style flags byte decodes back to exactly
      that level and configuration, whatever the trailing bytes hold. */
  lemma DecodeSeparatesFields(hi: bv8, lo: bv8, range: bv8, fast: bool, dbc: bool, rest: seq<bv8>)
    requires range <= MaxRange && |rest| == 5
    ensures Decode([hi, lo, ConfigureFlags(range, fast, dbc)] + rest)
         == Measurement(hi as int * 256 + lo as int, dbc, fast, RangeCodes[range])
  {
    var report := [hi, lo, ConfigureFlags(range, fast, dbc)] + rest;
    assert report[2] == ConfigureFlags(range, fast, dbc);
    ConfigureFlagsRoundTrip(range, fast, dbc);
    LevelBigEndian(hi, lo);
  }

  /** A worked report: 0x1f40 is 8000 tenths; flags 0x52 have bits 6 and 4 set, so the
      reading is fast and C-weighted, in the 50-100 dB band. */
  lemma DecodeExample()
    ensures Decode([0x1f, 0x40, 0x52, 0, 0, 0, 0, 0]) == Measurement(8000, true, true, Range50To100)
  {
    assert ParseFlags(0x52) == Flags(2, true, true);
  }
}
