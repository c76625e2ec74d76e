/**
 The TCP link's frame format: SOF, type, four-byte little-endian length, payload.
 Also the 40-byte sensor telemetry payload.
 */
module FrameProtocol {
  import opened Bytes

  const LL_SOF: byte := 0xA5
  const LL_HEADER_SIZE: nat := 6
  const LL_MAX_PAYLOAD: nat := 16 * 1024 * 1024

  const FRAME_SENSOR: byte := 0x01
  const FRAME_VIDEO: byte := 0x10
  const FRAME_THERMAL: byte := 0x20
  const FRAME_TEXT: byte := 0x30
  const FRAME_COMMAND: byte := 0x40

  const LL_SENSOR_PAYLOAD_SIZE: nat := 40

  datatype Frame = Frame(ty: byte, payload: seq<byte>)
  datatype Command = Command(cmdId: byte, value: byte)

  /** The six header bytes; a length beyond 32 bits is truncated, as the cast to uint32_t does. */
  function Header(ty: byte, len: nat): (h: seq<byte>)
    ensures |h| == LL_HEADER_SIZE
  {
    [LL_SOF, ty] + Le32(len)
  }

  method BuildHeader(ty: byte, len: nat, out: array<byte>)
    requires out.Length == LL_HEADER_SIZE
    modifies out
    ensures out[..] == Header(ty, len)
  {
    out[0] := LL_SOF;
    out[1] := ty;
    out[2] := Low8(len);
    out[3] := Low8(len / 0x100);
    out[4] := Low8(len / 0x1_0000);
    out[5] := Low8(len / 0x100_0000);
    assert out[..] == [out[0], out[1], out[2], out[3], out[4], out[5]];
  }

  /** The bytes of one frame on the wire. */
  function Encode(f: Frame): (s: seq<byte>)
    ensures |s| == LL_HEADER_SIZE + |f.payload|
  {
    Header(f.ty, |f.payload|) + f.payload
  }

  function EncodeAll(fs: seq<Frame>): seq<byte> {
    if fs == [] then [] else Encode(fs[0]) + EncodeAll(fs[1..])
  }

  lemma {:induction false} EncodeAllConcat(a: seq<Frame>, b: seq<Frame>)
    ensures EncodeAll(a + b) == EncodeAll(a) + EncodeAll(b)
  {
    if a == [] {
      assert a + b == b;
    } else {
      assert (a + b)[1..] == a[1..] + b;
      EncodeAllConcat(a[1..], b);
    }
  }

  method BuildFrame(ty: byte, payload: seq<byte>) returns (frame: seq<byte>)
    ensures frame == Encode(Frame(ty, payload))
  {
    var hdr := new byte[LL_HEADER_SIZE];
    BuildHeader(ty, |payload|, hdr);
    frame := hdr[..];
    if |payload| > 0 {
      frame := frame + payload;
    }
  }

  // ----- sensor telemetry -----

  newtype uint16 = x: int | 0 <= x < 0x1_0000
  newtype uint32 = x: int | 0 <= x < 0x1_0000_0000
  newtype int16 = x: int | -0x8000 <= x < 0x8000
  newtype int32 = x: int | -0x8000_0000 <= x < 0x8000_0000

  datatype SensorData = SensorData(
    timestampMs: uint32, temperature01c: int16, humidity01: uint16, gasPpm: uint16,
    pressurePa: uint32, distanceCm: uint16, encoder1: int32, encoder2: int32,
    speedL: int16, speedR: int16, servoUs: uint16, voltageMv: uint16,
    mode: byte, fault: byte, riskLevel: byte, flags: byte,
    fan: byte, buzzer: byte, relay: byte, led: byte)

  /** Reading a two's-complement field back from its unsigned bit pattern. */
  function Signed16(v: nat): (r: int16)
    requires v < TWO_16
  {
    if v < 0x8000 then v as int16 else (v - 0x1_0000) as int16
  }

  function Signed32(v: nat): (r: int32)
    requires v < TWO_32
  {
    if v < 0x8000_0000 then v as int32 else (v - 0x1_0000_0000) as int32
  }

  /** Bytes 0 to 15: time stamp and environment. */
  function EnvironmentBytes(s: SensorData): (b: seq<byte>)
    ensures |b| == 16
  {
    Le32(s.timestampMs as nat) + Le16(s.temperature01c as int % TWO_16) + Le16(s.humidity01 as nat)
    + Le16(s.gasPpm as nat) + Le32(s.pressurePa as nat) + Le16(s.distanceCm as nat)
  }

  /** Bytes 16 to 31: motion and supply voltage. */
  function MotionBytes(s: SensorData): (b: seq<byte>)
    ensures |b| == 16
  {
    Le32(s.encoder1 as int % TWO_32) + Le32(s.encoder2 as int % TWO_32)
    + Le16(s.speedL as int % TWO_16) + Le16(s.speedR as int % TWO_16)
    + Le16(s.servoUs as nat) + Le16(s.voltageMv as nat)
  }

  /** Bytes 32 to 39: modes and actuators. */
  function StatusBytes(s: SensorData): (b: seq<byte>)
    ensures |b| == 8
  {
    [s.mode, s.fault, s.riskLevel, s.flags, s.fan, s.buzzer, s.relay, s.led]
  }

  function SensorPayload(s: SensorData): (b: seq<byte>)
    ensures |b| == LL_SENSOR_PAYLOAD_SIZE
  {
    EnvironmentBytes(s) + MotionBytes(s) + StatusBytes(s)
  }

  method PackSensor(s: SensorData) returns (b: seq<byte>)
    ensures b == SensorPayload(s)
  {
    b := Le32(s.timestampMs as nat);
    b := b + Le16(s.temperature01c as int % TWO_16);
    b := b + Le16(s.humidity01 as nat);
    b := b + Le16(s.gasPpm as nat);
    b := b + Le32(s.pressurePa as nat);
    b := b + Le16(s.distanceCm as nat);
    assert b == EnvironmentBytes(s);
    ghost var e := b;
    b := b + Le32(s.encoder1 as int % TWO_32);
    b := b + Le32(s.encoder2 as int % TWO_32);
    b := b + Le16(s.speedL as int % TWO_16);
    b := b + Le16(s.speedR as int % TWO_16);
    b := b + Le16(s.servoUs as nat);
    b := b + Le16(s.voltageMv as nat);
    assert b == e + MotionBytes(s);
    b := b + [s.mode, s.fault, s.riskLevel, s.flags, s.fan, s.buzzer, s.relay, s.led];
  }

  function U16At(b: seq<byte>, k: nat): (v: nat)
    requires k + 2 <= |b|
    ensures v < TWO_16
  {
    FromLe16([b[k], b[k + 1]])
  }

  function U32At(b: seq<byte>, k: nat): (v: nat)
    requires k + 4 <= |b|
    ensures v < TWO_32
  {
    FromLe32([b[k], b[k + 1], b[k + 2], b[k + 3]])
  }

  /** What a receiver that knows the field offsets reads out of a sensor payload. */
  function UnpackSensor(b: seq<byte>): SensorData
    requires |b| >= LL_SENSOR_PAYLOAD_SIZE
  {
    SensorData(
      U32At(b, 0) as uint32, Signed16(U16At(b, 4)), U16At(b, 6) as uint16,
      U16At(b, 8) as uint16, U32At(b, 10) as uint32, U16At(b, 14) as uint16,
      Signed32(U32At(b, 16)), Signed32(U32At(b, 20)), Signed16(U16At(b, 24)), Signed16(U16At(b, 26)),
      U16At(b, 28) as uint16, U16At(b, 30) as uint16,
      b[32], b[33], b[34], b[35], b[36], b[37], b[38], b[39])
  }

  /** The 20 fields of the telemetry payload by byte offset, low byte first, negative values in two's complement. */
  lemma SensorLayout(s: SensorData)
    ensures var b := SensorPayload(s);
            && |b| == 40
            && b[0] as int + 256 * b[1] as int + 65536 * b[2] as int + 16777216 * b[3] as int == s.timestampMs as int
            && b[4] as int + 256 * b[5] as int == s.temperature01c as int % 65536
            && b[6] as int + 256 * b[7] as int == s.humidity01 as int && b[8] as int + 256 * b[9] as int == s.gasPpm as int
            && b[10] as int + 256 * b[11] as int + 65536 * b[12] as int + 16777216 * b[13] as int == s.pressurePa as int
            && b[14] as int + 256 * b[15] as int == s.distanceCm as int
            && b[16] as int + 256 * b[17] as int + 65536 * b[18] as int + 16777216 * b[19] as int
               == s.encoder1 as int % 4294967296
            && b[20] as int + 256 * b[21] as int + 65536 * b[22] as int + 16777216 * b[23] as int
               == s.encoder2 as int % 4294967296
            && b[24] as int + 256 * b[25] as int == s.speedL as int % 65536
            && b[26] as int + 256 * b[27] as int == s.speedR as int % 65536
            && b[28] as int + 256 * b[29] as int == s.servoUs as int && b[30] as int + 256 * b[31] as int == s.voltageMv as int
            && b[32] == s.mode && b[33] == s.fault && b[34] == s.riskLevel && b[35] == s.flags
            && b[36] == s.fan && b[37] == s.buzzer && b[38] == s.relay && b[39] == s.led
  {
    EnvironmentLayout(s);
    MotionLayout(s);
    hide EnvironmentBytes, MotionBytes;
    var b := SensorPayload(s);
    var e, m := EnvironmentBytes(s), MotionBytes(s);
    assert forall k | 0 <= k < 16 :: b[k] == e[k];
    assert forall k | 16 <= k < 32 :: b[k] == m[k - 16];
  }

  lemma EnvironmentWords(s: SensorData)
    ensures var b := EnvironmentBytes(s);
            && U32At(b, 0) == s.timestampMs as nat && U16At(b, 4) == s.temperature01c as int % TWO_16
            && U16At(b, 6) == s.humidity01 as nat && U16At(b, 8) == s.gasPpm as nat
            && U32At(b, 10) == s.pressurePa as nat && U16At(b, 14) == s.distanceCm as nat
  {
    hide Le16, Le32, U16At, U32At, FromLe16, FromLe32;
    EnvironmentOffsets(
      Le32(s.timestampMs as nat), Le16(s.temperature01c as int % TWO_16), Le16(s.humidity01 as nat),
      Le16(s.gasPpm as nat), Le32(s.pressurePa as nat), Le16(s.distanceCm as nat));
    Le32RoundTrip(s.timestampMs as nat);
    Le16RoundTrip(s.temperature01c as int % TWO_16);
    Le16RoundTrip(s.humidity01 as nat);
    Le16RoundTrip(s.gasPpm as nat);
    Le32RoundTrip(s.pressurePa as nat);
    Le16RoundTrip(s.distanceCm as nat);
  }

  lemma EnvironmentLayout(s: SensorData)
    ensures var b := EnvironmentBytes(s);
            && b[0] as int + 256 * b[1] as int + 65536 * b[2] as int + 16777216 * b[3] as int == s.timestampMs as int
            && b[4] as int + 256 * b[5] as int == s.temperature01c as int % 65536
            && b[6] as int + 256 * b[7] as int == s.humidity01 as int && b[8] as int + 256 * b[9] as int == s.gasPpm as int
            && b[10] as int + 256 * b[11] as int + 65536 * b[12] as int + 16777216 * b[13] as int == s.pressurePa as int
            && b[14] as int + 256 * b[15] as int == s.distanceCm as int
  {
    hide EnvironmentBytes, U16At, U32At;
    EnvironmentWords(s);
    var b := EnvironmentBytes(s);
    U32Is(b, 0);
    U16Is(b, 4);
    U16Is(b, 6);
    U16Is(b, 8);
    U32Is(b, 10);
    U16Is(b, 14);
  }

  /** A field read at an offset is its bytes, low byte first. */
  lemma U16Is(b: seq<byte>, k: nat)
    requires k + 2 <= |b|
    ensures U16At(b, k) == b[k] as nat + 256 * b[k + 1] as nat
  {
  }

  lemma U32Is(b: seq<byte>, k: nat)
    requires k + 4 <= |b|
    ensures U32At(b, k) == b[k] as nat + 256 * b[k + 1] as nat + 65536 * b[k + 2] as nat + 16777216 * b[k + 3] as nat
  {
  }

  lemma MotionWords(s: SensorData)
    ensures var b := MotionBytes(s);
            && U32At(b, 0) == s.encoder1 as int % TWO_32 && U32At(b, 4) == s.encoder2 as int % TWO_32
            && U16At(b, 8) == s.speedL as int % TWO_16 && U16At(b, 10) == s.speedR as int % TWO_16
            && U16At(b, 12) == s.servoUs as nat && U16At(b, 14) == s.voltageMv as nat
  {
    hide Le16, Le32, U16At, U32At, FromLe16, FromLe32;
    MotionOffsets(
      Le32(s.encoder1 as int % TWO_32), Le32(s.encoder2 as int % TWO_32), Le16(s.speedL as int % TWO_16),
      Le16(s.speedR as int % TWO_16), Le16(s.servoUs as nat), Le16(s.voltageMv as nat));
    Le32RoundTrip(s.encoder1 as int % TWO_32);
    Le32RoundTrip(s.encoder2 as int % TWO_32);
    Le16RoundTrip(s.speedL as int % TWO_16);
    Le16RoundTrip(s.speedR as int % TWO_16);
    Le16RoundTrip(s.servoUs as nat);
    Le16RoundTrip(s.voltageMv as nat);
  }

  lemma MotionLayout(s: SensorData)
    ensures var b := MotionBytes(s);
            && b[0] as int + 256 * b[1] as int + 65536 * b[2] as int + 16777216 * b[3] as int == s.encoder1 as int % 4294967296
            && b[4] as int + 256 * b[5] as int + 65536 * b[6] as int + 16777216 * b[7] as int == s.encoder2 as int % 4294967296
            && b[8] as int + 256 * b[9] as int == s.speedL as int % 65536
            && b[10] as int + 256 * b[11] as int == s.speedR as int % 65536
            && b[12] as int + 256 * b[13] as int == s.servoUs as int && b[14] as int + 256 * b[15] as int == s.voltageMv as int
  {
    hide MotionBytes, U16At, U32At;
    MotionWords(s);
    var b := MotionBytes(s);
    U32Is(b, 0);
    U32Is(b, 4);
    U16Is(b, 8);
    U16Is(b, 10);
    U16Is(b, 12);
    U16Is(b, 14);
  }

  lemma Signed16RoundTrip(x: int16)
    ensures Signed16(x as int % TWO_16) == x
  {
  }

  lemma Signed32RoundTrip(x: int32)
    ensures Signed32(x as int % TWO_32) == x
  {
  }

  /** Field offsets of the first half: widths 4, 2, 2, 2, 4, 2. */
  lemma EnvironmentOffsets(p: seq<byte>, q: seq<byte>, r: seq<byte>, t: seq<byte>, u: seq<byte>, v: seq<byte>)
    requires |p| == |u| == 4 && |q| == |r| == |t| == |v| == 2
    ensures var b := p + q + r + t + u + v;
            && U32At(b, 0) == FromLe32(p) && U16At(b, 4) == FromLe16(q) && U16At(b, 6) == FromLe16(r)
            && U16At(b, 8) == FromLe16(t) && U32At(b, 10) == FromLe32(u) && U16At(b, 14) == FromLe16(v)
  {
  }

  /** Field offsets of the second half: widths 4, 4, 2, 2, 2, 2. */
  lemma MotionOffsets(p: seq<byte>, q: seq<byte>, r: seq<byte>, t: seq<byte>, u: seq<byte>, v: seq<byte>)
    requires |p| == |q| == 4 && |r| == |t| == |u| == |v| == 2
    ensures var b := p + q + r + t + u + v;
            && U32At(b, 0) == FromLe32(p) && U32At(b, 4) == FromLe32(q) && U16At(b, 8) == FromLe16(r)
            && U16At(b, 10) == FromLe16(t) && U16At(b, 12) == FromLe16(u) && U16At(b, 14) == FromLe16(v)
  {
  }

  lemma EnvironmentRoundTrip(s: SensorData)
    ensures var b := EnvironmentBytes(s);
            && U32At(b, 0) == s.timestampMs as nat && Signed16(U16At(b, 4)) == s.temperature01c
            && U16At(b, 6) == s.humidity01 as nat && U16At(b, 8) == s.gasPpm as nat
            && U32At(b, 10) == s.pressurePa as nat && U16At(b, 14) == s.distanceCm as nat
  {
    EnvironmentWords(s);
    hide EnvironmentBytes, U16At, U32At, Signed16;
    Signed16RoundTrip(s.temperature01c);
  }

  lemma MotionRoundTrip(s: SensorData)
    ensures var b := MotionBytes(s);
            && Signed32(U32At(b, 0)) == s.encoder1 && Signed32(U32At(b, 4)) == s.encoder2
            && Signed16(U16At(b, 8)) == s.speedL && Signed16(U16At(b, 10)) == s.speedR
            && U16At(b, 12) == s.servoUs as nat && U16At(b, 14) == s.voltageMv as nat
  {
    MotionWords(s);
    hide MotionBytes, U16At, U32At, Signed16, Signed32;
    Signed32RoundTrip(s.encoder1);
    Signed32RoundTrip(s.encoder2);
    Signed16RoundTrip(s.speedL);
    Signed16RoundTrip(s.speedR);
  }

  /** The payload is 40 bytes and every field, signed ones included, survives the trip. */
  lemma SensorRoundTrip(s: SensorData)
    ensures UnpackSensor(SensorPayload(s)) == s
  {
    EnvironmentRoundTrip(s);
    MotionRoundTrip(s);
  }
}
