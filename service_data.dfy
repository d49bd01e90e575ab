/** HeartRateServiceData: one decoded Heart Rate Measurement notification
    (characteristic 0x2A37) and its CSV row.

    Byte 0 of the payload is the flags byte; the heart rate follows at offset 1 in
    one byte, or in two little-endian bytes when bit 0 is set; when bit 4 is set,
    every remaining pair of bytes is one RR interval.  Two departures from the Heart
    Rate Service specification are part of this decoder and are kept here:
      - the two-byte Energy Expended field (present when bit 3 is set) is not
        skipped, so its bytes are read as the first RR interval;
      - bit 1 is named "contact supported" and bit 2 "in contact", while the
        standard's two-bit field has bit 2 = supported and bit 1 = detected. */
module ServiceData {
  import opened Text
  import opened Wrappers

  newtype uint8 = x: int | 0 <= x < 0x100
  newtype uint16 = x: int | 0 <= x < 0x1_0000

  /** Number of RR slots in a CSV row. */
  const MaxRR: nat := 9

  /** The value of a decoded notification, field for field as the class holds it. */
  datatype Measurement = Measurement(
    timestamp: string,
    isHrvLong: bool,
    isSensorContactSupported: bool,
    isSensorInContact: bool,
    isEnergyExpendedIncluded: bool,
    hasRrIntervals: bool,
    heartRate: uint16,
    rrIntervals: seq<uint16>)

  /** Bit `k` of a byte, by arithmetic: the reference the mask tests are checked against. */
  predicate Bit(b: uint8, k: nat)
    requires k < 8
  {
    (b as int / [1, 2, 4, 8, 16, 32, 64, 128][k]) % 2 == 1
  }

  /** `(flags & mask) != 0` */
  predicate HasFlag(flags: uint8, mask: bv8) {
    flags as bv8 & mask != 0
  }

  /** `BitConverter.ToUInt16(data, i)` on a little-endian machine: low byte first.
      The result determines both bytes, so no two byte pairs share a value. */
  function ToUInt16(data: seq<uint8>, i: nat): (v: uint16)
    requires i + 1 < |data|
    ensures v as int % 256 == data[i] as int
    ensures v as int / 256 == data[i + 1] as int
  {
    (data[i] as int + 256 * data[i + 1] as int) as uint16
  }

  lemma LowBit(g: bv8)
    ensures (g & 1 != 0) == (g as int % 2 == 1)
  {
  }

  lemma ShiftIsDivision(f: bv8)
    ensures (f >> 1) as int == f as int / 2
    ensures (f >> 2) as int == f as int / 4
    ensures (f >> 3) as int == f as int / 8
    ensures (f >> 4) as int == f as int / 16
  {
  }

  lemma MaskIsShift(f: bv8)
    ensures (f & 0x02 != 0) == ((f >> 1) & 1 != 0)
    ensures (f & 0x04 != 0) == ((f >> 2) & 1 != 0)
    ensures (f & 0x08 != 0) == ((f >> 3) & 1 != 0)
    ensures (f & 0x10 != 0) == ((f >> 4) & 1 != 0)
  {
  }

  /** Each single-bit mask the decoder uses tests the bit of the same position. */
  lemma MaskIsBit(flags: uint8)
    ensures HasFlag(flags, 0x01) == Bit(flags, 0)
    ensures HasFlag(flags, 0x02) == Bit(flags, 1)
    ensures HasFlag(flags, 0x04) == Bit(flags, 2)
    ensures HasFlag(flags, 0x08) == Bit(flags, 3)
    ensures HasFlag(flags, 0x10) == Bit(flags, 4)
  {
    var f := flags as bv8;
    ShiftIsDivision(f);
    MaskIsShift(f);
    LowBit(f);
    LowBit(f >> 1);
    LowBit(f >> 2);
    LowBit(f >> 3);
    LowBit(f >> 4);
  }

  /** Offset of the byte after the heart-rate field: 3 for the two-byte form, else 2.
      It depends on bit 0 only; bit 3 (Energy Expended) does not move it. */
  function HeartRateEnd(flags: uint8): (end: nat)
    ensures end == if Bit(flags, 0) then 3 else 2
  {
    LowBit(flags as bv8);
    if HasFlag(flags, 0x01) then 3 else 2
  }

  /** Every complete byte pair of `data` from `start` on, as little-endian values,
      in transmission order; a dangling last byte is dropped. */
  function PairsFrom(data: seq<uint8>, start: nat): (rr: seq<uint16>)
    requires start <= |data|
    ensures |rr| == (|data| - start) / 2
    ensures forall j :: 0 <= j < |rr| ==> rr[j] == ToUInt16(data, start + 2 * j)
    decreases |data| - start
  {
    if |data| - start < 2 then []
    else [ToUInt16(data, start)] + PairsFrom(data, start + 2)
  }

  /** The payloads the decoder can read: a flags byte and a complete heart-rate field. */
  predicate Decodable(data: seq<uint8>) {
    |data| >= 1 && |data| >= HeartRateEnd(data[0])
  }

  /** What the constructor makes of a payload. */
  function Decode(data: seq<uint8>, timestamp: string): (m: Measurement)
    requires Decodable(data)
    ensures m.timestamp == timestamp
    ensures m.isHrvLong == Bit(data[0], 0)
    ensures m.isSensorContactSupported == Bit(data[0], 1)
    ensures m.isSensorInContact == Bit(data[0], 2)
    ensures m.isEnergyExpendedIncluded == Bit(data[0], 3)
    ensures m.hasRrIntervals == Bit(data[0], 4)
    ensures m.heartRate as int ==
      if Bit(data[0], 0) then data[1] as int + 256 * data[2] as int else data[1] as int
    ensures !Bit(data[0], 4) ==> m.rrIntervals == []
    ensures Bit(data[0], 4) ==>
      |m.rrIntervals| == (|data| - HeartRateEnd(data[0])) / 2 &&
      forall j :: 0 <= j < |m.rrIntervals| ==>
        m.rrIntervals[j] as int ==
          data[HeartRateEnd(data[0]) + 2 * j] as int + 256 * data[HeartRateEnd(data[0]) + 2 * j + 1] as int
  {
    var flags := data[0];
    MaskIsBit(flags);
    var long := HasFlag(flags, 0x01);
    var rr := HasFlag(flags, 0x10);
    Measurement(
      timestamp,
      long,
      HasFlag(flags, 0x02),
      HasFlag(flags, 0x04),
      HasFlag(flags, 0x08),
      rr,
      if long then ToUInt16(data, 1) else data[1] as int as uint16,
      if rr then PairsFrom(data, HeartRateEnd(flags)) else [])
  }

  /** Two payloads that agree after the flags byte, and whose flags agree on the
      width bit and the RR bit, decode to the same heart rate and RR intervals. */
  lemma SameFieldsAfterFlags(a: seq<uint8>, b: seq<uint8>, timestamp: string)
    requires Decodable(a)
    requires |b| == |a| && b[1..] == a[1..]
    requires HasFlag(b[0], 0x01) == HasFlag(a[0], 0x01) && HasFlag(b[0], 0x10) == HasFlag(a[0], 0x10)
    ensures Decodable(b)
    ensures Decode(b, timestamp).heartRate == Decode(a, timestamp).heartRate
    ensures Decode(b, timestamp).rrIntervals == Decode(a, timestamp).rrIntervals
  {
    forall i | 1 <= i < |a| ensures b[i] == a[i] {
      assert b[i] == b[1..][i - 1];
    }
    var start := HeartRateEnd(a[0]);
    var ra, rb := PairsFrom(a, start), PairsFrom(b, start);
    assert |ra| == |rb|;
    forall j | 0 <= j < |ra| ensures ra[j] == rb[j] {
    }
  }

  lemma ToggleBit3(f: bv8, g: bv8)
    requires g == f ^ 0x08
    ensures (g & 0x01 != 0) == (f & 0x01 != 0)
    ensures (g & 0x02 != 0) == (f & 0x02 != 0)
    ensures (g & 0x04 != 0) == (f & 0x04 != 0)
    ensures (g & 0x10 != 0) == (f & 0x10 != 0)
    ensures (g & 0x08 != 0) == !(f & 0x08 != 0)
  {
  }

  /** Bit 3 of the flags does not move the cursor: setting or clearing it changes the
      Energy Expended flag and nothing else, not the heart rate, not the RR intervals. */
  lemma EnergyFlagDoesNotMoveCursor(a: seq<uint8>, b: seq<uint8>, timestamp: string)
    requires Decodable(a)
    requires |b| == |a| && b[1..] == a[1..] && b[0] as bv8 == a[0] as bv8 ^ 0x08
    ensures Decodable(b)
    ensures Decode(b, timestamp) ==
      Decode(a, timestamp).(isEnergyExpendedIncluded := !Decode(a, timestamp).isEnergyExpendedIncluded)
  {
    ToggleBit3(a[0] as bv8, b[0] as bv8);
    MaskIsBit(a[0]);
    MaskIsBit(b[0]);
    SameFieldsAfterFlags(a, b, timestamp);
  }

  lemma SameLowBits(f: bv8, g: bv8)
    requires g & 0x1F == f & 0x1F
    ensures (g & 0x01 != 0) == (f & 0x01 != 0)
    ensures (g & 0x02 != 0) == (f & 0x02 != 0)
    ensures (g & 0x04 != 0) == (f & 0x04 != 0)
    ensures (g & 0x08 != 0) == (f & 0x08 != 0)
    ensures (g & 0x10 != 0) == (f & 0x10 != 0)
  {
  }

  /** Bits 5 to 7 of the flags are reserved: they change nothing in the decoded value. */
  lemma ReservedBitsIgnored(a: seq<uint8>, b: seq<uint8>, timestamp: string)
    requires Decodable(a)
    requires |b| == |a| && b[1..] == a[1..] && b[0] as bv8 & 0x1F == a[0] as bv8 & 0x1F
    ensures Decodable(b)
    ensures Decode(b, timestamp) == Decode(a, timestamp)
  {
    SameLowBits(a[0] as bv8, b[0] as bv8);
    SameFieldsAfterFlags(a, b, timestamp);
  }

  /** Low and high byte of a 16-bit value. */
  function Lo(v: uint16): uint8 {
    (v as int % 256) as uint8
  }

  function Hi(v: uint16): uint8 {
    (v as int / 256) as uint8
  }

  /** Values laid out as little-endian byte pairs, in order: how a sensor transmits
      the RR intervals and the other two-byte fields. */
  function LittleEndianPairs(vs: seq<uint16>): (bytes: seq<uint8>)
    ensures |bytes| == 2 * |vs|
    ensures forall j :: 0 <= j < |vs| ==> bytes[2 * j] == Lo(vs[j]) && bytes[2 * j + 1] == Hi(vs[j])
  {
    if |vs| == 0 then []
    else [Lo(vs[0]), Hi(vs[0])] + LittleEndianPairs(vs[1..])
  }

  /** A payload laid out as the Heart Rate Service specification lays it out: flags,
      the heart rate in one byte or in two, the Energy Expended field exactly when
      bit 3 is set, then the RR intervals. */
  function StandardPayload(flags: uint8, heartRate: uint16, energy: Option<uint16>, rr: seq<uint16>): (p: seq<uint8>)
    requires Bit(flags, 0) || heartRate < 256
    requires Bit(flags, 3) <==> energy.Some?
    ensures Decodable(p) && p[0] == flags
    ensures |p| == HeartRateEnd(flags) + (if energy.Some? then 2 else 0) + 2 * |rr|
  {
    [flags]
    + (if Bit(flags, 0) then [Lo(heartRate), Hi(heartRate)] else [heartRate as int as uint8])
    + (if energy.Some? then [Lo(energy.value), Hi(energy.value)] else [])
    + LittleEndianPairs(rr)
  }

  /** Decoding a standard payload gives back its heart rate at either width.  Its RR
      intervals come back in order, but behind the Energy Expended value when that
      field is present: the decoder reads the Energy Expended bytes as an interval. */
  lemma DecodeStandardPayload(flags: uint8, heartRate: uint16, energy: Option<uint16>, rr: seq<uint16>, timestamp: string)
    requires Bit(flags, 0) || heartRate < 256
    requires Bit(flags, 3) <==> energy.Some?
    ensures Decode(StandardPayload(flags, heartRate, energy, rr), timestamp).heartRate == heartRate
    ensures Decode(StandardPayload(flags, heartRate, energy, rr), timestamp).rrIntervals ==
      if Bit(flags, 4) then (if energy.Some? then [energy.value] else []) + rr else []
  {
    var p := StandardPayload(flags, heartRate, energy, rr);
    var m := Decode(p, timestamp);
    var start := HeartRateEnd(flags);
    var tail := (if energy.Some? then [energy.value] else []) + rr;
    var pairs := LittleEndianPairs(tail);
    if energy.Some? {
      assert tail[1..] == rr;
    } else {
      assert tail == rr;
    }
    assert p == p[..start] + pairs;
    if Bit(flags, 4) {
      assert |m.rrIntervals| == |tail|;
      forall j | 0 <= j < |tail| ensures m.rrIntervals[j] == tail[j] {
        assert p[start + 2 * j] == pairs[2 * j];
        assert p[start + 2 * j + 1] == pairs[2 * j + 1];
      }
    }
  }

  /** Header line of the CSV log: the twelve column names, comma-joined. */
  function GetCsVHeader(): (h: string)
    ensures Split(h) == HeaderFields()
  {
    SplitJoin(HeaderFields());
    Join(HeaderFields())
  }

  function HeaderFields(): (names: seq<string>)
    ensures |names| == 3 + MaxRR
    ensures forall i :: 0 <= i < |names| ==> CommaFree(names[i]) && LineFree(names[i])
  {
    ["Timestamp", "Contact", "HeartRate", "RR1", "RR2", "RR3", "RR4", "RR5", "RR6", "RR7", "RR8", "RR9"]
  }

  /** The text of RR slot `i`: the interval in decimal if there is one, else empty. */
  function RRSlot(rr: seq<uint16>, i: nat): string {
    if i < |rr| then Decimal(rr[i] as nat) else ""
  }

  function ContactText(inContact: bool): string {
    if inContact then "TRUE" else "FALSE"
  }

  /** The fields of a CSV row: timestamp, contact, heart rate, then `MaxRR` RR slots. */
  function CsvFields(m: Measurement): seq<string> {
    [m.timestamp, ContactText(m.isSensorInContact), Decimal(m.heartRate as nat)]
    + seq(MaxRR, i requires 0 <= i < MaxRR => RRSlot(m.rrIntervals, i))
  }

  /** Where each field of a row sits. */
  lemma CsvFieldsLayout(m: Measurement)
    ensures |CsvFields(m)| == 3 + MaxRR
    ensures CsvFields(m)[..3] == [m.timestamp, ContactText(m.isSensorInContact), Decimal(m.heartRate as nat)]
    ensures forall i :: 0 <= i < MaxRR ==> CsvFields(m)[3 + i] == RRSlot(m.rrIntervals, i)
  {
  }

  /** A row with a comma-free timestamp splits back into exactly its fields, as many
      as the header has. */
  lemma RowSplitsIntoFields(m: Measurement)
    requires CommaFree(m.timestamp)
    ensures Split(Join(CsvFields(m))) == CsvFields(m)
    ensures |CsvFields(m)| == |Split(GetCsVHeader())| == 3 + MaxRR
  {
    var fs := CsvFields(m);
    forall k | 0 <= k < |fs| ensures CommaFree(fs[k]) {
      if k == 2 {
        DecimalCommaFree(m.heartRate as nat);
      } else if k >= 3 && k - 3 < |m.rrIntervals| {
        DecimalCommaFree(m.rrIntervals[k - 3] as nat);
      }
    }
    SplitJoin(fs);
  }

  /** The fields of a row: the timestamp, TRUE/FALSE from the in-contact flag
      (bit 2), the heart rate, then one slot per RR interval for the first nine
      intervals and empty slots after the last one.  Intervals past the ninth have
      no slot. */
  lemma RowFields(m: Measurement)
    ensures |CsvFields(m)| == 3 + MaxRR
    ensures CsvFields(m)[0] == m.timestamp
    ensures CsvFields(m)[1] == "TRUE" <==> m.isSensorInContact
    ensures CsvFields(m)[1] == "FALSE" <==> !m.isSensorInContact
    ensures DigitsValue(CsvFields(m)[2]) == m.heartRate as nat
    ensures forall i :: 0 <= i < MaxRR ==>
      if i < |m.rrIntervals| then DigitsValue(CsvFields(m)[3 + i]) == m.rrIntervals[i] as nat
      else CsvFields(m)[3 + i] == ""
  {
    var fs := CsvFields(m);
    forall i | 0 <= i < MaxRR
      ensures if i < |m.rrIntervals| then DigitsValue(fs[3 + i]) == m.rrIntervals[i] as nat else fs[3 + i] == ""
    {
      assert fs[3 + i] == RRSlot(m.rrIntervals, i);
    }
  }

  class HeartRateServiceData {
    var timestamp: string
    var isHrvLong: bool
    var isSensorContactSupported: bool
    var isSensorInContact: bool
    var isEnergyExpendedIncluded: bool
    var hasRrIntervals: bool
    var heartRateMeasurement: uint16
    var rrIntervals: array<uint16>

    /** The decoded value the fields hold. */
    function Value(): Measurement
      reads this, rrIntervals
    {
      Measurement(timestamp, isHrvLong, isSensorContactSupported, isSensorInContact,
        isEnergyExpendedIncluded, hasRrIntervals, heartRateMeasurement, rrIntervals[..])
    }

    /** Decodes a payload that holds the flags byte and the whole heart-rate field;
        `now` is the capture time, already formatted. */
    constructor (data: array<uint8>, now: string)
      requires Decodable(data[..])
      ensures Value() == Decode(data[..], now)
      ensures fresh(rrIntervals)
    {
      var index := 1;
      var flags := data[0] as bv8;
      var long := (flags & 0x01) != 0;
      var hasRr := (flags & 0x10) != 0;
      timestamp := now;
      isHrvLong := long;
      isSensorContactSupported := (flags & 0x02) != 0;
      isSensorInContact := (flags & 0x04) != 0;
      isEnergyExpendedIncluded := (flags & 0x08) != 0;
      hasRrIntervals := hasRr;
      if long {
        heartRateMeasurement := ToUInt16(data[..], 1);
        index := index + 2;
      } else {
        heartRateMeasurement := data[1] as int as uint16;
        index := index + 1;
      }
      var rr: array<uint16>;
      if hasRr {
        ghost var start := index;
        assert start == HeartRateEnd(data[0]);
        rr := new uint16[(data.Length - index) / 2];
        for j := 0 to rr.Length
          invariant index == start + 2 * j
          invariant forall k :: 0 <= k < j ==> rr[k] == ToUInt16(data[..], start + 2 * k)
        {
          rr[j] := ToUInt16(data[..], index);
          index := index + 2;
        }
        assert rr[..] == PairsFrom(data[..], start);
      } else {
        rr := new uint16[0];
      }
      rrIntervals := rr;
    }

    /** The CSV row: the `MaxRR` + 3 fields of the reading, comma-joined. */
    method ToString() returns (row: string)
      ensures row == Join(CsvFields(Value()))
      ensures CommaFree(timestamp) ==> Split(row) == CsvFields(Value())
    {
      ghost var fields := CsvFields(Value());
      CsvFieldsLayout(Value());
      var strings := [timestamp, ContactText(isSensorInContact), Decimal(heartRateMeasurement as nat)];
      for i := 0 to MaxRR
        invariant strings == fields[..3 + i]
      {
        assert fields[..3 + i + 1] == fields[..3 + i] + [fields[3 + i]];
        if i < rrIntervals.Length {
          strings := strings + [Decimal(rrIntervals[i] as nat)];
        } else {
          strings := strings + [""];
        }
      }
      assert strings == fields;
      row := Join(strings);
      if CommaFree(timestamp) {
        RowSplitsIntoFields(Value());
      }
    }
  }

}
