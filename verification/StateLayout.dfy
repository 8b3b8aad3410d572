/** Where each field of the state lies in the persisted bytes, and with which code. */
module StateLayout {
  import opened Geometry
  import opened ZoneTypes
  import opened Persistence
  import opened StateImage

  /** The header, the configuration, the idle times, the zone count, and the closing magic number. */
  lemma FrontLayout(d: Device, idle: Idle, crc: u32)
    requires d.Valid() && StateSize(|d.status|) < TWO32
    ensures
      var b := Image(d, idle, crc);
      && |b| == 44 + 44 * |d.status|
      && b[0..4] == [0xEF, 0xBE, 0xEF, 0xBE]
      && Read32(b, 4) as nat == |b| && Read32(b, 8) == 0x1_0000 && Read32(b, 12) == crc
      && Read32(b, 16) == d.policy.readFlag && Read32(b, 20) == d.policy.writeFlag
      && Read16(b, 24) == d.policy.readDelay && Read16(b, 26) == d.policy.writeDelay
      && Read32(b, 28) == idle.max && Read32(b, 32) == idle.min
      && Read32(b, 36) == d.layout.statsZones
      && b[|b| - 4..] == [0xEF, 0xBE, 0xEF, 0xBE]
  {
    TableSlices(d, idle, crc);
    FrontFields(Image(d, idle, crc), d, idle, crc);
    OtherFrontFields(Image(d, idle, crc), d, idle, crc);
    ClosingMagic(d, idle, crc);
    MagicBytes();
  }

  lemma OtherFrontFields(b: Bytes, d: Device, idle: Idle, crc: u32)
    requires StateSize(|d.status|) < TWO32
    requires |b| >= 40 && b[..40] == Front(d, idle, crc)
    ensures b[0..4] == [0xEF, 0xBE, 0xEF, 0xBE]
    ensures Read32(b, 8) == 0x1_0000 && Read32(b, 28) == idle.max && Read32(b, 32) == idle.min
  {
    var f := Front(d, idle, crc);
    assert b[0..0 + |f|] == f;
    Field32(b, 0, f, 8, VERSION);
    Field32(b, 0, f, 28, idle.max);
    Field32(b, 0, f, 32, idle.min);
    SubSlice(b, 0, f, 0, 4);
    assert f[0..4] == Le32(MAGIC);
  }

  lemma ClosingMagic(d: Device, idle: Idle, crc: u32)
    requires d.Valid() && StateSize(|d.status|) < TWO32
    ensures var b := Image(d, idle, crc); b[|b| - 4..] == Le32(MAGIC)
  {
    LastFour(Front(d, idle, crc), StatsTable(d.stats), StatusTable(d.status), Le32(MAGIC));
  }

  lemma LastFour(a: Bytes, b: Bytes, c: Bytes, last: Bytes)
    requires |last| == 4
    ensures var whole := a + b + c + last; whole[|whole| - 4..] == last
  {}

  lemma MagicBytes()
    ensures Le32(MAGIC) == [0xEF, 0xBE, 0xEF, 0xBE]
  {}

  /** The counters of zone `i`, 20 bytes each from byte 40 on. */
  lemma CountersLayout(d: Device, idle: Idle, crc: u32, i: nat)
    requires d.Valid() && StateSize(|d.status|) < TWO32 && i < |d.stats|
    ensures
      var b, at, s := Image(d, idle, crc), 40 + 20 * i, d.stats[i];
      && Read32(b, at) == s.beyondSwp && Read32(b, at + 4) == s.readSpan
      && Read32(b, at + 8) == s.notOnSwp && Read32(b, at + 12) == s.writeSpan && Read32(b, at + 16) == s.unaligned
  {
    StatsFromImage(d, idle, crc, i);
  }

  /** The codes of condition and type. */
  predicate CodedAs(c: Condition, code: nat) {
    match c
    case NoWp => code == 0x00
    case Empty => code == 0x01
    case ImpOpen => code == 0x02
    case ExpOpen => code == 0x03
    case Closed => code == 0x04
    case ReadOnly => code == 0x0D
    case Full => code == 0x0E
    case Offline => code == 0x0F
  }

  predicate TypedAs(t: ZoneType, code: nat) {
    match t
    case Reserved => code == 0
    case Conventional => code == 1
    case Sequential => code == 2
    case Preferred => code == 3
  }

  /** A zone status in 24 bytes. */
  lemma RecordLayout(b: Bytes, at: nat, s: ZoneStatus)
    requires at + 24 <= |b| && b[at..at + 24] == StatusBytes(s)
    ensures s.start == Read32(b, at) as nat + 0x1_0000_0000 * Read32(b, at + 4) as nat
    ensures Read32(b, at + 8) == s.length && Read32(b, at + 12) == s.wp && Read32(b, at + 16) == s.checkpoint
    ensures CodedAs(s.cond, Read16(b, at + 20)) && TypedAs(s.ztype, b[at + 22]) && b[at + 23] == s.flag
  {
    StatusRoundTrip(b, at, s);
    SevenParts(Le32(s.start % 0x1_0000_0000), Le32(s.start / 0x1_0000_0000), Le32(s.length), Le32(s.wp),
               Le32(s.checkpoint), Le16(CondCode(s.cond)), [TypeCode(s.ztype), s.flag]);
    Field16(b, at, StatusBytes(s), 20, CondCode(s.cond));
    assert b[at + 22] == b[at..at + 24][22] && b[at + 23] == b[at..at + 24][23];
  }

  /** The status of zone `i` stands behind the counters of all allocated zones. */
  lemma StatusPlace(d: Device, idle: Idle, crc: u32, i: nat)
    requires d.Valid() && StateSize(|d.status|) < TWO32 && i < |d.status|
    ensures
      var b, at := Image(d, idle, crc), 40 + 20 * |d.status| + 24 * i;
      at + 24 <= |b| && ReadStatus(b, at) == d.status[i]
  {
    StatusFromImage(d, idle, crc, i);
  }
}
