// On-wire frames of the Eclair protocol: `[header][payload ...][checksum]`,
// where the checksum is the XOR of the payload bytes (src/scales/eclair.cpp).


module EclairFrames {
  import opened EclairMessages

  /** The range of a C `int32_t`. */
  type Int32 = x: int | -0x8000_0000 <= x < 0x8000_0000

  // ---------------------------------------------------------------------------
  // Checksum
  // ---------------------------------------------------------------------------

  /** XOR of all bytes, folded from the front as the driver's loop does; 0 for no bytes. */
  function XorOf(s: seq<bv8>): bv8
  {
    if |s| == 0 then 0 else XorOf(s[..|s| - 1]) ^ s[|s| - 1]
  }

  lemma XorAppend(s: seq<bv8>, x: bv8)
    ensures XorOf(s + [x]) == XorOf(s) ^ x
  {
    assert (s + [x])[..|s|] == s;
  }

  /** The checksum of a concatenation is the XOR of the checksums of the parts. */
  lemma {:induction false} XorConcat(a: seq<bv8>, b: seq<bv8>)
    ensures XorOf(a + b) == XorOf(a) ^ XorOf(b)
  {
    if |b| == 0 {
      assert a + b == a;
    } else {
      var b', x := b[..|b| - 1], b[|b| - 1];
      assert b == b' + [x];
      assert a + b == (a + b') + [x];
      XorConcat(a, b');
      XorAppend(a + b', x);
      XorAppend(b', x);
    }
  }

  /** Appending a sequence's checksum to it gives a sequence whose checksum is 0. */
  lemma ChecksumAppendedGivesZero(s: seq<bv8>)
    ensures XorOf(s + [XorOf(s)]) == 0
  {
    XorAppend(s, XorOf(s));
  }

  /** Taking out the byte at j takes it out of the checksum. */
  lemma XorRemove(b: seq<bv8>, j: nat)
    requires j < |b|
    ensures XorOf(b) == XorOf(b[..j] + b[j + 1..]) ^ b[j]
  {
    var front, back := b[..j], b[j + 1..];
    assert b == (front + [b[j]]) + back;
    XorConcat(front + [b[j]], back);
    XorAppend(front, b[j]);
    XorConcat(front, back);
  }

  lemma MultisetRemove(a: seq<bv8>, b: seq<bv8>, j: nat)
    requires multiset(a) == multiset(b) && |a| > 0
    requires j < |b| && b[j] == a[|a| - 1]
    ensures multiset(a[..|a| - 1]) == multiset(b[..j] + b[j + 1..])
  {
    var x := a[|a| - 1];
    assert a == a[..|a| - 1] + [x];
    assert b == b[..j] + [x] + b[j + 1..];
    assert multiset(a[..|a| - 1]) == multiset(a) - multiset{x};
    assert multiset(b[..j] + b[j + 1..]) == multiset(b) - multiset{x};
  }

  /** The checksum does not depend on the order of the bytes. */
  lemma {:induction false} XorOrderIndependent(a: seq<bv8>, b: seq<bv8>)
    requires multiset(a) == multiset(b)
    ensures XorOf(a) == XorOf(b)
    decreases |a|
  {
    if |a| == 0 {
      assert |b| == |multiset(b)| == 0;
    } else {
      var x := a[|a| - 1];
      assert x in multiset(b);
      var j :| 0 <= j < |b| && b[j] == x;
      MultisetRemove(a, b, j);
      XorOrderIndependent(a[..|a| - 1], b[..j] + b[j + 1..]);
      XorRemove(b, j);
    }
  }

  /** Replacing one byte changes the checksum by exactly the XOR of the old and new byte. */
  lemma XorUpdate(s: seq<bv8>, i: nat, v: bv8)
    requires i < |s|
    ensures XorOf(s[i := v]) == XorOf(s) ^ s[i] ^ v
  {
    var front, back := s[..i], s[i + 1..];
    assert s == front + [s[i]] + back;
    assert s[i := v] == front + [v] + back;
    XorConcat(front + [s[i]], back);
    XorConcat(front + [v], back);
    XorAppend(front, s[i]);
    XorAppend(front, v);
  }

  // ---------------------------------------------------------------------------
  // Frames
  // ---------------------------------------------------------------------------

  /** The frame `sendMessage` builds: the header, the payload copied unchanged,
      then the XOR of the payload only. */
  function EncodeFrame(header: bv8, payload: seq<bv8>): (f: seq<bv8>)
    ensures |f| == |payload| + 2
    ensures f[0] == header && f[1..|f| - 1] == payload && f[|f| - 1] == XorOf(payload)
  {
    [header] + payload + [XorOf(payload)]
  }

  /** The receivers' integrity test: the last byte is the XOR of bytes 1 .. |f|-2. */
  predicate ChecksumValid(f: seq<bv8>)
    requires |f| >= 2
  {
    f[|f| - 1] == XorOf(f[1..|f| - 1])
  }

  /** Every frame the encoder builds passes the receivers' checksum test. */
  lemma {:induction false} EncodedFramePassesChecksum(header: bv8, payload: seq<bv8>)
    ensures ChecksumValid(EncodeFrame(header, payload))
    ensures XorOf(EncodeFrame(header, payload)[1..]) == 0
  {
    var f := EncodeFrame(header, payload);
    assert f[1..] == payload + [XorOf(payload)];
    ChecksumAppendedGivesZero(payload);
  }

  /** Changing any one byte after the header of a frame that passes the checksum
      test (a payload byte or the checksum byte itself) makes it fail. */
  lemma {:induction false} SingleByteCorruptionDetected(f: seq<bv8>, i: nat, v: bv8)
    requires |f| >= 2 && ChecksumValid(f)
    requires 1 <= i < |f| && v != f[i]
    ensures !ChecksumValid(f[i := v])
  {
    var g := f[i := v];
    var p := f[1..|f| - 1];
    if i == |f| - 1 {
      assert g[1..|g| - 1] == p;
    } else {
      assert g[1..|g| - 1] == p[i - 1 := v];
      XorUpdate(p, i - 1, v);
    }
  }

  // ---------------------------------------------------------------------------
  // Little-endian signed 32-bit integers
  // ---------------------------------------------------------------------------

  /** The unsigned value of four little-endian bytes. */
  function Uint32FromLE(b: seq<bv8>): nat
    requires |b| == 4
  {
    b[0] as int + 0x100 * (b[1] as int + 0x100 * (b[2] as int + 0x100 * (b[3] as int)))
  }

  /** The four little-endian bytes of a number below 2^32. */
  function Uint32ToLE(u: nat): (b: seq<bv8>)
    requires u < 0x1_0000_0000
    ensures |b| == 4
  {
    var u1 := u / 0x100;
    var u2 := u1 / 0x100;
    [ByteOf(u % 0x100), ByteOf(u1 % 0x100), ByteOf(u2 % 0x100), ByteOf(u2 / 0x100)]
  }

  /** The `int32_t` whose two's-complement bit pattern has unsigned value u. */
  function Signed32(u: nat): Int32
    requires u < 0x1_0000_0000
  {
    if u < 0x8000_0000 then u else u - 0x1_0000_0000
  }

  /** The unsigned value of the two's-complement bit pattern of x. */
  function Unsigned32(x: Int32): (u: nat)
    ensures u < 0x1_0000_0000
  {
    if x >= 0 then x else x + 0x1_0000_0000
  }

  /** The `int32_t` whose little-endian two's-complement bytes are b (the driver's `memcpy`). */
  function Int32LE(b: seq<bv8>): Int32
    requires |b| == 4
  {
    Signed32(Uint32FromLE(b))
  }

  /** The little-endian two's-complement bytes of x. */
  function Int32ToLE(x: Int32): (b: seq<bv8>)
    ensures |b| == 4
  {
    Uint32ToLE(Unsigned32(x))
  }

  /** The byte holding a number below 256, that is `n as bv8`; it is counted
      up from 0 so that its value follows by induction (`ByteOfValue`)
      instead of by the solver's int-to-bit-vector conversion, whose proofs
      are not stable. */
  function ByteOf(n: nat): bv8
    requires n < 0x100
  {
    if n == 0 then 0 else ByteOf(n - 1) + 1
  }

  lemma {:induction false} ByteOfValue(n: nat)
    requires n < 0x100
    ensures ByteOf(n) as int == n
  {
    if n > 0 {
      ByteOfValue(n - 1);
      assert ByteOf(n - 1) < 0xFF;
    }
  }

  /** Every byte is the byte of its own value. */
  lemma ByteOfInverse(b: bv8)
    ensures ByteOf(b as int) == b
  {
    ByteOfValue(b as int);
    var c := ByteOf(b as int);
    assert c as int == b as int;
  }

  lemma ByteSplit(a: int, q: int, r: int)
    requires 0 <= r < 0x100
    ensures a == 0x100 * q + r <==> a / 0x100 == q && a % 0x100 == r
  {
  }

  lemma Uint32RoundTrip(u: nat)
    requires u < 0x1_0000_0000
    ensures Uint32FromLE(Uint32ToLE(u)) == u
  {
    var u1 := u / 0x100;
    var u2 := u1 / 0x100;
    var r0, r1, r2, r3 := u % 0x100, u1 % 0x100, u2 % 0x100, u2 / 0x100;
    ByteSplit(u, u1, r0);
    ByteSplit(u1, u2, r1);
    ByteSplit(u2, r3, r2);
    ByteOfValue(r0);
    ByteOfValue(r1);
    ByteOfValue(r2);
    ByteOfValue(r3);
  }

  lemma Uint32BytesRoundTrip(b: seq<bv8>)
    requires |b| == 4
    ensures Uint32ToLE(Uint32FromLE(b)) == b
  {
    var r0, r1, r2, r3 := b[0] as int, b[1] as int, b[2] as int, b[3] as int;
    var u2 := r2 + 0x100 * r3;
    var u1 := r1 + 0x100 * u2;
    var u := r0 + 0x100 * u1;
    assert Uint32FromLE(b) == u;
    ByteSplit(u, u1, r0);
    ByteSplit(u1, u2, r1);
    ByteSplit(u2, r3, r2);
    ByteOfInverse(b[0]);
    ByteOfInverse(b[1]);
    ByteOfInverse(b[2]);
    ByteOfInverse(b[3]);
  }

  /** Decoding the encoding of an int32 gives it back. */
  lemma Int32RoundTrip(x: Int32)
    ensures Int32LE(Int32ToLE(x)) == x
  {
    Uint32RoundTrip(Unsigned32(x));
  }

  /** Every four bytes are the encoding of the int32 they decode to. */
  lemma Int32BytesRoundTrip(b: seq<bv8>)
    requires |b| == 4
    ensures Int32ToLE(Int32LE(b)) == b
  {
    assert Unsigned32(Int32LE(b)) == Uint32FromLE(b);
    Uint32BytesRoundTrip(b);
  }

  /** A raw weight (milligram count) in grams: `rawWeight / 1000`, over the reals. */
  function Grams(raw: Int32): real
  {
    raw as real / 1000.0
  }

  // ---------------------------------------------------------------------------
  // Data channel (weight and flow notifications)
  // ---------------------------------------------------------------------------

  /** Header, payload (eight bytes: weight and timer) and checksum. */
  const DATA_MIN_LENGTH: nat := 10

  /** What the data handler does with one notification. */
  datatype DataNotice =
    | DataTooShort
    | DataBadChecksum(calculated: bv8, received: bv8)
    | WeightUpdate(raw: Int32)
    | FlowRateData
    | UnknownDataHeader(header: bv8)

  /** Length check, then checksum check, then dispatch on the header byte. */
  function DecodeData(f: seq<bv8>): DataNotice
  {
    if |f| < DATA_MIN_LENGTH then DataTooShort
    else if XorOf(f[1..|f| - 1]) != f[|f| - 1] then DataBadChecksum(XorOf(f[1..|f| - 1]), f[|f| - 1])
    else if f[0] == TagByte(Weight) then WeightUpdate(Int32LE(f[1..5]))
    else if f[0] == TagByte(Flow) then FlowRateData
    else UnknownDataHeader(f[0])
  }

  /** The stored raw weight after the data handler has seen f. */
  function WeightAfterData(f: seq<bv8>, weight: Int32): Int32
  {
    match DecodeData(f)
    case WeightUpdate(raw) => raw
    case _ => weight
  }

  /** A data frame is taken as a weight exactly when it is long enough, passes
      the checksum test and carries the WEIGHT header; the weight is then the
      little-endian int32 in bytes 1..4. */
  lemma DataFrameAccepted(f: seq<bv8>)
    ensures DecodeData(f).WeightUpdate? <==> |f| >= 10 && ChecksumValid(f) && f[0] == 0x57
    ensures DecodeData(f).WeightUpdate? ==> DecodeData(f).raw == Int32LE(f[1..5])
  {
  }

  /** Short frames, bad checksums and flow or unknown headers leave the weight as it was. */
  lemma RejectedDataFrameKeepsWeight(f: seq<bv8>, weight: Int32)
    requires |f| < 10 || !ChecksumValid(f) || f[0] != TagByte(Weight)
    ensures WeightAfterData(f, weight) == weight
    ensures |f| < 10 ==> DecodeData(f) == DataTooShort
    ensures |f| >= 10 && !ChecksumValid(f) ==> DecodeData(f) == DataBadChecksum(XorOf(f[1..|f| - 1]), f[|f| - 1])
  {
  }

  /** A weight frame built by the encoder decodes to the weight it was built from. */
  lemma {:induction false} WeightFrameRoundTrip(raw: Int32, timer: seq<bv8>)
    requires |timer| == 4
    ensures DecodeData(EncodeFrame(TagByte(Weight), Int32ToLE(raw) + timer)) == WeightUpdate(raw)
  {
    var p := Int32ToLE(raw) + timer;
    var f := EncodeFrame(TagByte(Weight), p);
    EncodedFramePassesChecksum(TagByte(Weight), p);
    assert f[1..5] == p[..4] == Int32ToLE(raw);
    Int32RoundTrip(raw);
  }

  /** A weight frame that arrives with one byte after the header changed is
      rejected, and the stored weight is kept. */
  lemma {:induction false} CorruptedWeightFrameRejected(raw: Int32, timer: seq<bv8>, i: nat, v: bv8, weight: Int32)
    requires |timer| == 4
    requires 1 <= i < 10 && v != EncodeFrame(TagByte(Weight), Int32ToLE(raw) + timer)[i]
    ensures DecodeData(EncodeFrame(TagByte(Weight), Int32ToLE(raw) + timer)[i := v]).DataBadChecksum?
    ensures WeightAfterData(EncodeFrame(TagByte(Weight), Int32ToLE(raw) + timer)[i := v], weight) == weight
  {
    var f := EncodeFrame(TagByte(Weight), Int32ToLE(raw) + timer);
    EncodedFramePassesChecksum(TagByte(Weight), Int32ToLE(raw) + timer);
    SingleByteCorruptionDetected(f, i, v);
  }

  /** Example: raw weight 12345 is 12.345 g. */
  lemma {:induction false} ExampleWeightFrame()
    ensures DecodeData(EncodeFrame(0x57, [0x39, 0x30, 0x00, 0x00, 0x00, 0x00, 0x00, 0x00])) == WeightUpdate(12345)
    ensures Grams(12345) == 12.345
  {
    assert Int32LE([0x39, 0x30, 0x00, 0x00]) == 12345;
    Int32BytesRoundTrip([0x39, 0x30, 0x00, 0x00]);
    var payload: seq<bv8> := [0x39, 0x30, 0x00, 0x00] + [0x00, 0x00, 0x00, 0x00];
    assert payload == [0x39, 0x30, 0x00, 0x00, 0x00, 0x00, 0x00, 0x00];
    WeightFrameRoundTrip(12345, [0x00, 0x00, 0x00, 0x00]);
  }

  /** Example: raw weight -500 is -0.5 g. */
  lemma {:induction false} ExampleNegativeWeightFrame()
    ensures DecodeData(EncodeFrame(0x57, [0x0C, 0xFE, 0xFF, 0xFF, 0x00, 0x00, 0x00, 0x00])) == WeightUpdate(-500)
    ensures Grams(-500) == -0.5
  {
    assert Int32LE([0x0C, 0xFE, 0xFF, 0xFF]) == -500;
    Int32BytesRoundTrip([0x0C, 0xFE, 0xFF, 0xFF]);
    var payload: seq<bv8> := [0x0C, 0xFE, 0xFF, 0xFF] + [0x00, 0x00, 0x00, 0x00];
    assert payload == [0x0C, 0xFE, 0xFF, 0xFF, 0x00, 0x00, 0x00, 0x00];
    WeightFrameRoundTrip(-500, [0x00, 0x00, 0x00, 0x00]);
  }

  // ---------------------------------------------------------------------------
  // Config channel (battery and timer notifications)
  // ---------------------------------------------------------------------------

  /** Header, one value byte and checksum. */
  const CONFIG_MIN_LENGTH: nat := 3

  /** What the config handler does with one notification. */
  datatype ConfigNotice =
    | ConfigTooShort
    | ConfigBadChecksum(calculated: bv8, received: bv8)
    | BatteryUpdate(level: bv8)
    | TimerStatusData(value: bv8)
    | UnknownConfigHeader(header: bv8)

  /** Length check, then checksum check, then dispatch on the header byte. */
  function DecodeConfig(f: seq<bv8>): ConfigNotice
  {
    if |f| < CONFIG_MIN_LENGTH then ConfigTooShort
    else if XorOf(f[1..|f| - 1]) != f[|f| - 1] then ConfigBadChecksum(XorOf(f[1..|f| - 1]), f[|f| - 1])
    else if f[0] == TagByte(Battery) then BatteryUpdate(f[1])
    else if f[0] == TagByte(Config) then TimerStatusData(f[1])
    else UnknownConfigHeader(f[0])
  }

  /** The stored battery level after the config handler has seen f. */
  function BatteryAfterConfig(f: seq<bv8>, battery: bv8): bv8
  {
    match DecodeConfig(f)
    case BatteryUpdate(level) => level
    case _ => battery
  }

  /** A config frame sets the battery exactly when it is long enough, passes the
      checksum test and carries the BATTERY header; the level is then byte 1. */
  lemma ConfigFrameAccepted(f: seq<bv8>)
    ensures DecodeConfig(f).BatteryUpdate? <==> |f| >= 3 && ChecksumValid(f) && f[0] == 0x42
    ensures DecodeConfig(f).BatteryUpdate? ==> DecodeConfig(f).level == f[1]
  {
  }

  /** Short frames, bad checksums and timer or unknown headers leave the battery as it was. */
  lemma RejectedConfigFrameKeepsBattery(f: seq<bv8>, battery: bv8)
    requires |f| < 3 || !ChecksumValid(f) || f[0] != TagByte(Battery)
    ensures BatteryAfterConfig(f, battery) == battery
    ensures |f| < 3 ==> DecodeConfig(f) == ConfigTooShort
    ensures |f| >= 3 && !ChecksumValid(f) ==> DecodeConfig(f) == ConfigBadChecksum(XorOf(f[1..|f| - 1]), f[|f| - 1])
  {
  }

  /** A battery frame built by the encoder sets the battery to its value byte. */
  lemma {:induction false} BatteryFrameRoundTrip(level: bv8, rest: seq<bv8>)
    ensures DecodeConfig(EncodeFrame(TagByte(Battery), [level] + rest)) == BatteryUpdate(level)
  {
    EncodedFramePassesChecksum(TagByte(Battery), [level] + rest);
  }

  /** The keep-alive frame the driver sends is itself a well-formed timer-status frame. */
  lemma {:induction false} HeartbeatFrameIsTimerStatus()
    ensures EncodeFrame(TagByte(Config), [0x00]) == [0x43, 0x00, 0x00]
    ensures DecodeConfig(EncodeFrame(TagByte(Config), [0x00])) == TimerStatusData(0x00)
  {
    EncodedFramePassesChecksum(TagByte(Config), [0x00]);
  }

  /** The tare command frame: the flag 0x01 is its own checksum. */
  lemma TareFrameLayout(tare: TareTag)
    ensures EncodeFrame(tare, [0x01]) == [tare, 0x01, 0x01]
  {
  }
}
