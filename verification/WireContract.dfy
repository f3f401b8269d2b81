/** The binary contract between the backend and the devices: the Python command encoder and decoder
    (src/integrations/chirpstack/downlink_encoder.py), the Python location and acknowledgement
    decoders (src/integrations/chirpstack/payload_codec.py) and the Go code of the device simulator
    (infra/chirpstack-simulator/payload.go). Base64 is taken to be invertible and left out. */
module WireContract {
  import opened Basics

  type Byte = x: int | 0 <= x < 256

  const PROTOCOL_VERSION_V1: Byte := 1

  // ----- Big-endian integers

  predicate IsU16(v: int) { 0 <= v < 0x1_0000 }

  predicate IsI16(v: int) { -0x8000 <= v < 0x8000 }

  predicate IsI32(v: int) { -0x8000_0000 <= v < 0x8000_0000 }

  function PackU16(v: int): seq<Byte>
    requires IsU16(v)
  {
    [v / 256, v % 256]
  }

  function UnpackU16(b: seq<Byte>): int
    requires |b| == 2
  {
    (b[0] as int) * 256 + b[1]
  }

  /** Two's complement: negative values are sent as their residue modulo 2^16 or 2^32. */
  function PackI16(v: int): seq<Byte>
    requires IsI16(v)
  {
    PackU16(v % 0x1_0000)
  }

  function UnpackI16(b: seq<Byte>): int
    requires |b| == 2
  {
    var u := UnpackU16(b);
    if u < 0x8000 then u else u - 0x1_0000
  }

  function PackU32(v: int): seq<Byte>
    requires 0 <= v < 0x1_0000_0000
  {
    PackU16(v / 0x1_0000) + PackU16(v % 0x1_0000)
  }

  function PackI32(v: int): seq<Byte>
    requires IsI32(v)
  {
    PackU32(v % 0x1_0000_0000)
  }

  function UnpackI32(b: seq<Byte>): int
    requires |b| == 4
  {
    var u := UnpackU16(b[..2]) * 0x1_0000 + UnpackU16(b[2..]);
    if u < 0x8000_0000 then u else u - 0x1_0000_0000
  }

  lemma U16RoundTrip(v: int, b: seq<Byte>)
    requires IsU16(v) && |b| == 2
    ensures UnpackU16(PackU16(v)) == v
    ensures IsU16(UnpackU16(b)) && PackU16(UnpackU16(b)) == b
  {
  }

  lemma I16RoundTrip(v: int, b: seq<Byte>)
    requires IsI16(v) && |b| == 2
    ensures UnpackI16(PackI16(v)) == v
    ensures IsI16(UnpackI16(b)) && PackI16(UnpackI16(b)) == b
  {
    U16RoundTrip(v % 0x1_0000, b);
    assert v % 0x1_0000 == if v < 0 then v + 0x1_0000 else v;
    assert UnpackI16(b) % 0x1_0000 == UnpackU16(b);
  }

  lemma I32RoundTrip(v: int, b: seq<Byte>)
    requires IsI32(v) && |b| == 4
    ensures UnpackI32(PackI32(v)) == v
    ensures IsI32(UnpackI32(b)) && PackI32(UnpackI32(b)) == b
  {
    var u := v % 0x1_0000_0000;
    U16RoundTrip(u / 0x1_0000, b[..2]);
    U16RoundTrip(u % 0x1_0000, b[2..]);
    assert PackU32(u)[..2] == PackU16(u / 0x1_0000) && PackU32(u)[2..] == PackU16(u % 0x1_0000);
    var hi, lo := UnpackU16(b[..2]), UnpackU16(b[2..]);
    var w := hi * 0x1_0000 + lo;
    assert w / 0x1_0000 == hi && w % 0x1_0000 == lo;
    assert UnpackI32(b) % 0x1_0000_0000 == w;
    assert b == b[..2] + b[2..];
  }

  // ----- Commands, backend side

  datatype CommandType =
    | SetReportInterval | WarningSound | Vibration | StopCorrection | EmergencyDisable | RequestStatus

  /** The entries of `payload_fields` the encoder looks at; flags default to zero. */
  datatype Fields = Fields(
    flags: int, intervalSeconds: Option<int>, durationSeconds: Option<int>, durationMs: Option<int>)

  const NO_FIELDS := Fields(0, None, None, None)

  datatype Decoded = Decoded(commandType: CommandType, commandSeq: int, flags: int, parameter: Option<int>)

  datatype WireError =
    | SeqOutOfRange | FlagsOutOfRange | UnsupportedType
    | IntervalMissing | IntervalOutOfRange | DurationMissing | DurationOutOfRange
    | WrongLength | UnsupportedVersion | UnknownTypeCode

  function TypeCode(t: CommandType): Option<Byte> {
    match t
    case SetReportInterval => Some(1)
    case WarningSound => Some(2)
    case StopCorrection => Some(3)
    case RequestStatus => Some(4)
    case _ => None
  }

  function TypeFromCode(code: int): Option<CommandType> {
    if code == 1 then Some(SetReportInterval)
    else if code == 2 then Some(WarningSound)
    else if code == 3 then Some(StopCorrection)
    else if code == 4 then Some(RequestStatus)
    else None
  }

  predicate ValidSeq(s: int) { 1 <= s <= 65535 }

  function NormalizeInterval(f: Fields): Result<int, WireError> {
    match f.intervalSeconds
    case None => Err(IntervalMissing)
    case Some(v) => if v < 1 || v > 65535 then Err(IntervalOutOfRange) else Ok(v)
  }

  function CeilDiv(n: int, d: int): int
    requires d > 0
  {
    -((-n) / d)
  }

  /** Seconds given directly, or milliseconds rounded up to at least one second. */
  function NormalizeDuration(f: Fields): Result<int, WireError> {
    var seconds :=
      if f.durationSeconds.Some? then f.durationSeconds
      else if f.durationMs.Some? then Some(Max(1, CeilDiv(f.durationMs.value, 1000)))
      else None;
    match seconds
    case None => Err(DurationMissing)
    case Some(v) => if v < 1 || v > 255 then Err(DurationOutOfRange) else Ok(v)
  }

  /** The parameter of a command in the form it is sent in; none for the commands without one. */
  function Parameter(t: CommandType, f: Fields): Result<Option<int>, WireError> {
    if t == SetReportInterval then
      (match NormalizeInterval(f) case Ok(v) => Ok(Some(v)) case Err(e) => Err(e))
    else if t == WarningSound then
      (match NormalizeDuration(f) case Ok(v) => Ok(Some(v)) case Err(e) => Err(e))
    else Ok(None)
  }

  function ParameterBytes(t: CommandType, p: Option<int>): seq<Byte>
    requires t == SetReportInterval ==> p.Some? && IsU16(p.value)
    requires t == WarningSound ==> p.Some? && 0 <= p.value < 256
  {
    if t == SetReportInterval then PackU16(p.value)
    else if t == WarningSound then [p.value]
    else []
  }

  function EncodeCommand(t: CommandType, seqNo: int, f: Fields): Result<seq<Byte>, WireError> {
    if !ValidSeq(seqNo) then Err(SeqOutOfRange)
    else if f.flags < 0 || f.flags > 255 then Err(FlagsOutOfRange)
    else if TypeCode(t).None? then Err(UnsupportedType)
    else
      match Parameter(t, f)
      case Err(e) => Err(e)
      case Ok(p) =>
        Ok([PROTOCOL_VERSION_V1, TypeCode(t).value] + PackU16(seqNo) + [f.flags] + ParameterBytes(t, p))
  }

  function DecodeParameter(t: CommandType, rest: seq<Byte>): Result<Option<int>, WireError> {
    if t == SetReportInterval then
      if |rest| != 2 then Err(WrongLength) else Ok(Some(UnpackU16(rest)))
    else if t == WarningSound then
      if |rest| != 1 then Err(WrongLength) else Ok(Some(rest[0]))
    else if rest != [] then Err(WrongLength)
    else Ok(None)
  }

  function DecodeCommand(data: seq<Byte>): Result<Decoded, WireError> {
    if |data| < 5 then Err(WrongLength)
    else
      var seqNo := UnpackU16(data[2..4]);
      var commandType := TypeFromCode(data[1]);
      if data[0] != PROTOCOL_VERSION_V1 then Err(UnsupportedVersion)
      else if !ValidSeq(seqNo) then Err(SeqOutOfRange)
      else if commandType.None? then Err(UnknownTypeCode)
      else
        match DecodeParameter(commandType.value, data[5..])
        case Err(e) => Err(e)
        case Ok(p) => Ok(Decoded(commandType.value, seqNo, data[4], p))
  }

  // ----- Commands, device side (Go)

  datatype GoDecoded = GoDecoded(commandType: Byte, commandSeq: int, flags: Byte)

  datatype GoError = TooShort | BadVersion | ZeroSeq | BadLength | UnknownType

  function GoDecodeCommand(payload: seq<Byte>): Result<GoDecoded, GoError> {
    if |payload| < 5 then Err(TooShort)
    else
      var decoded := GoDecoded(payload[1], UnpackU16(payload[2..4]), payload[4]);
      if payload[0] != 1 then Err(BadVersion)
      else if decoded.commandSeq == 0 then Err(ZeroSeq)
      else if decoded.commandType == 1 then if |payload| != 7 then Err(BadLength) else Ok(decoded)
      else if decoded.commandType == 2 then if |payload| != 6 then Err(BadLength) else Ok(decoded)
      else if decoded.commandType == 3 || decoded.commandType == 4 then
        if |payload| != 5 then Err(BadLength) else Ok(decoded)
      else Err(UnknownType)
  }

  function ExtractCommandSeq(payload: seq<Byte>): Result<int, GoError> {
    if |payload| < 4 then Err(TooShort)
    else
      var seqNo := UnpackU16(payload[2..4]);
      if seqNo == 0 then Err(ZeroSeq) else Ok(seqNo)
  }

  // ----- Round trips of commands

  /** Decoding what was encoded gives the command back with its parameter normalised. */
  lemma DecodeAfterEncode(t: CommandType, seqNo: int, f: Fields)
    requires EncodeCommand(t, seqNo, f).Ok?
    ensures DecodeCommand(EncodeCommand(t, seqNo, f).value)
            == Ok(Decoded(t, seqNo, f.flags, Parameter(t, f).value))
  {
    var p := Parameter(t, f).value;
    var data := EncodeCommand(t, seqNo, f).value;
    var rest := ParameterBytes(t, p);
    U16RoundTrip(seqNo, [0, 0]);
    assert data[2..4] == PackU16(seqNo) && data[5..] == rest;
    if t == SetReportInterval {
      U16RoundTrip(p.value, [0, 0]);
    }
  }

  /** The fields that ask for a decoded command. */
  function FieldsOf(d: Decoded): Fields {
    Fields(d.flags,
           if d.commandType == SetReportInterval then d.parameter else None,
           if d.commandType == WarningSound then d.parameter else None,
           None)
  }

  /** Re-encoding accepted bytes reproduces them exactly unless their parameter is zero, which the
      decoder admits and the encoder does not. */
  lemma EncodeAfterDecode(data: seq<Byte>)
    requires DecodeCommand(data).Ok?
    ensures var d := DecodeCommand(data).value;
            EncodeCommand(d.commandType, d.commandSeq, FieldsOf(d)) == Ok(data) <==> d.parameter != Some(0)
    ensures var d := DecodeCommand(data).value;
            d.parameter == Some(0) ==> EncodeCommand(d.commandType, d.commandSeq, FieldsOf(d)).Err?
  {
    var d := DecodeCommand(data).value;
    U16RoundTrip(1, data[2..4]);
    assert data == [data[0], data[1]] + data[2..4] + [data[4]] + data[5..];
    if d.commandType == SetReportInterval {
      U16RoundTrip(1, data[5..]);
    } else if d.commandType == WarningSound {
      assert data[5..] == [data[5]];
    }
  }

  /** The exception occurs: a report interval of zero seconds is decoded and cannot be encoded. */
  lemma ZeroIntervalIsOneWay()
    ensures var r := DecodeCommand([1, 1, 0, 1, 0, 0, 0]);
            && r == Ok(Decoded(SetReportInterval, 1, 0, Some(0)))
            && EncodeCommand(SetReportInterval, 1, FieldsOf(r.value)) == Err(IntervalOutOfRange)
  {
    var data: seq<Byte> := [1, 1, 0, 1, 0, 0, 0];
    assert data[2..4] == [0, 1] && data[5..] == [0, 0];
  }

  /** The two independent decoders accept exactly the same byte strings and read the same type,
      sequence number and flags from them. */
  lemma DecodersAgree(data: seq<Byte>)
    ensures GoDecodeCommand(data).Ok? <==> DecodeCommand(data).Ok?
    ensures GoDecodeCommand(data).Ok? ==>
              var g, d := GoDecodeCommand(data).value, DecodeCommand(data).value;
              && TypeCode(d.commandType) == Some(g.commandType)
              && g.commandSeq == d.commandSeq && g.flags == d.flags
              && ExtractCommandSeq(data) == Ok(g.commandSeq)
  {
    if |data| >= 5 {
      U16RoundTrip(1, data[2..4]);
    }
  }

  // ----- Application acknowledgements

  datatype AckStatus = Executed | Duplicate | Expired | Rejected | Failed

  datatype AckPayload = AckPayload(commandSeq: int, status: AckStatus, errorCode: Byte)

  datatype AckError = AckInvalidLength | AckUnsupportedVersion | AckInvalidSeq | AckUnknownStatus

  function AckStatusFromCode(code: int): Option<AckStatus> {
    if code == 1 then Some(Executed)
    else if code == 2 then Some(Rejected)
    else if code == 3 then Some(Failed)
    else if code == 4 then Some(Expired)
    else if code == 5 then Some(Duplicate)
    else None
  }

  function AckBytes(seqNo: int, status: Byte, error: Byte): seq<Byte>
    requires IsU16(seqNo)
  {
    [PROTOCOL_VERSION_V1] + PackU16(seqNo) + [status, error]
  }

  function DecodeAck(payload: seq<Byte>): Result<AckPayload, AckError> {
    if |payload| != 5 then Err(AckInvalidLength)
    else
      var seqNo := UnpackU16(payload[1..3]);
      var status := AckStatusFromCode(payload[3]);
      if payload[0] != PROTOCOL_VERSION_V1 then Err(AckUnsupportedVersion)
      else if seqNo == 0 then Err(AckInvalidSeq)
      else if status.None? then Err(AckUnknownStatus)
      else Ok(AckPayload(seqNo, status.value, payload[4]))
  }

  /** The Go encoder fills a fresh five-byte slice in place. */
  method EncodeCommandAckPayload(seqNo: int, status: Byte, error: Byte) returns (payload: array<Byte>)
    requires IsU16(seqNo)
    ensures fresh(payload) && payload[..] == AckBytes(seqNo, status, error)
  {
    payload := new Byte[5](_ => 0);
    payload[0] := 1;
    PutUint16(payload, 1, seqNo);
    payload[3] := status;
    payload[4] := error;
  }

  /** What the backend reads from an acknowledgement is what the device wrote, and it refuses
      exactly sequence number zero and unknown status codes. */
  lemma AckRoundTrip(seqNo: int, status: Byte, error: Byte)
    requires IsU16(seqNo)
    ensures var r := DecodeAck(AckBytes(seqNo, status, error));
            && (r.Ok? <==> seqNo != 0 && 1 <= status <= 5)
            && (r.Ok? ==> r.value.commandSeq == seqNo && Some(r.value.status) == AckStatusFromCode(status)
                          && r.value.errorCode == error)
  {
    U16RoundTrip(seqNo, [0, 0]);
    assert AckBytes(seqNo, status, error)[1..3] == PackU16(seqNo);
  }

  // ----- Locations

  datatype Point = Point(lat: real, lng: real, altitude: real, accuracy: real, battery: Byte)

  datatype Telemetry = Telemetry(
    lat: real, lng: real, altitude: int, accuracy: int, battery: Byte, fixType: Byte)

  datatype LocationError =
    | LocationLength | LocationVersion | LocationMessageType | LatitudeRange | LongitudeRange | FixTypeUnknown

  /** `math.Round` of Go: to the nearest integer, halves away from zero. */
  function Round(x: real): int {
    if x >= 0.0 then (x + 0.5).Floor else -((-x + 0.5).Floor)
  }

  const E7 := 10000000.0

  /** Go's conversion of a whole float to a signed integer type: exact when it fits, and otherwise
      whatever the platform makes of it, given by `platform`. */
  function ToI32(v: int, platform: int -> int): (r: int)
    ensures IsI32(r) && (IsI32(v) ==> r == v)
  {
    if IsI32(v) then v else (platform(v) + 0x8000_0000) % 0x1_0000_0000 - 0x8000_0000
  }

  function ToI16(v: int, platform: int -> int): (r: int)
    ensures IsI16(r) && (IsI16(v) ==> r == v)
  {
    if IsI16(v) then v else (platform(v) + 0x8000) % 0x1_0000 - 0x8000
  }

  function ClampByte(x: real): Byte {
    Max(0, Min(255, Round(x)))
  }

  function LocationBytes(p: Point, platform: int -> int): (r: seq<Byte>)
    ensures |r| == 15
  {
    [PROTOCOL_VERSION_V1, 1]
    + PackI32(ToI32(Round(p.lat * E7), platform)) + PackI32(ToI32(Round(p.lng * E7), platform))
    + PackI16(ToI16(Round(p.altitude), platform)) + [ClampByte(p.accuracy), p.battery, 1]
  }

  function DecodeLocation(payload: seq<Byte>): Result<Telemetry, LocationError> {
    if |payload| != 15 then Err(LocationLength)
    else
      var lat := UnpackI32(payload[2..6]) as real / E7;
      var lng := UnpackI32(payload[6..10]) as real / E7;
      if payload[0] != PROTOCOL_VERSION_V1 then Err(LocationVersion)
      else if payload[1] != 1 then Err(LocationMessageType)
      else if lat < -90.0 || lat > 90.0 then Err(LatitudeRange)
      else if lng < -180.0 || lng > 180.0 then Err(LongitudeRange)
      else if payload[14] > 3 then Err(FixTypeUnknown)
      else
        // without a fix the accuracy is forced to be clearly unreliable
        var accuracy := if payload[14] == 0 then Max(payload[12], 255) else payload[12];
        Ok(Telemetry(lat, lng, UnpackI16(payload[10..12]), accuracy, payload[13], payload[14]))
  }

  method PutUint16(a: array<Byte>, at: nat, v: int)
    requires at + 2 <= a.Length && IsU16(v)
    modifies a
    ensures a[..] == old(a[..at]) + PackU16(v) + old(a[at + 2..])
  {
    a[at] := v / 256;
    a[at + 1] := v % 256;
  }

  method PutUint32(a: array<Byte>, at: nat, v: int)
    requires at + 4 <= a.Length && 0 <= v < 0x1_0000_0000
    modifies a
    ensures a[..] == old(a[..at]) + PackU32(v) + old(a[at + 4..])
  {
    PutUint16(a, at, v / 0x1_0000);
    PutUint16(a, at + 2, v % 0x1_0000);
  }

  /** The fifteen bytes, written field by field. */
  method FillLocation(payload: array<Byte>, lat: int, lng: int, altitude: int, accuracy: Byte, battery: Byte)
    requires payload.Length == 15
    requires 0 <= lat < 0x1_0000_0000 && 0 <= lng < 0x1_0000_0000 && IsU16(altitude)
    modifies payload
    ensures payload[..] == [PROTOCOL_VERSION_V1, 1] + PackU32(lat) + PackU32(lng) + PackU16(altitude)
                           + [accuracy, battery, 1]
  {
    payload[0] := 1;
    payload[1] := 1;
    ghost var head: seq<Byte> := [PROTOCOL_VERSION_V1, 1];
    assert payload[..2] == head;
    PutUint32(payload, 2, lat);
    head := head + PackU32(lat);
    assert payload[..6] == head;
    PutUint32(payload, 6, lng);
    head := head + PackU32(lng);
    assert payload[..10] == head;
    PutUint16(payload, 10, altitude);
    head := head + PackU16(altitude);
    assert payload[..12] == head;
    payload[12] := accuracy;
    payload[13] := battery;
    payload[14] := 1;
    assert payload[..12] == head;
    assert payload[..] == payload[..12] + [payload[12], payload[13], payload[14]];
  }

  /** The Go encoder fills a fresh fifteen-byte slice in place. */
  method EncodeLocationPayload(p: Point, platform: int -> int) returns (payload: array<Byte>)
    ensures fresh(payload) && payload[..] == LocationBytes(p, platform)
  {
    payload := new Byte[15](_ => 0);
    var lat, lng := ToI32(Round(p.lat * E7), platform), ToI32(Round(p.lng * E7), platform);
    var altitude := ToI16(Round(p.altitude), platform);
    FillLocation(payload, lat % 0x1_0000_0000, lng % 0x1_0000_0000, altitude % 0x1_0000,
                 ClampByte(p.accuracy), p.battery);
  }

  lemma RoundWithinHalf(x: real)
    ensures -0.5 <= Round(x) as real - x <= 0.5
  {
  }

  lemma RoundKeepsBound(x: real, bound: int)
    requires 0 <= bound && -(bound as real) <= x <= bound as real
    ensures -bound <= Round(x) <= bound
  {
  }

  /** Every position on Earth fits, arrives within half a unit of the seventh decimal, and is
      accepted; altitude and accuracy arrive rounded, the accuracy clamped to a byte. */
  lemma LocationSurvives(p: Point, platform: int -> int)
    requires -90.0 <= p.lat <= 90.0 && -180.0 <= p.lng <= 180.0 && IsI16(Round(p.altitude))
    ensures DecodeLocation(LocationBytes(p, platform)).Ok?
    ensures var t := DecodeLocation(LocationBytes(p, platform)).value;
            && -0.5 / E7 <= t.lat - p.lat <= 0.5 / E7
            && -0.5 / E7 <= t.lng - p.lng <= 0.5 / E7
            && t.altitude == Round(p.altitude) && t.accuracy == ClampByte(p.accuracy)
            && t.battery == p.battery
  {
    var lat, lng, alt := Round(p.lat * E7), Round(p.lng * E7), Round(p.altitude);
    RoundKeepsBound(p.lat * E7, 900_000_000);
    RoundKeepsBound(p.lng * E7, 1_800_000_000);
    RoundWithinHalf(p.lat * E7);
    RoundWithinHalf(p.lng * E7);
    var b := LocationBytes(p, platform);
    assert b[2..6] == PackI32(lat) && b[6..10] == PackI32(lng) && b[10..12] == PackI16(alt);
    I32RoundTrip(lat, [0, 0, 0, 0]);
    I32RoundTrip(lng, [0, 0, 0, 0]);
    I16RoundTrip(alt, [0, 0]);
  }

  /** The point a device would have to report to produce the telemetry. */
  function PointOf(t: Telemetry): Point {
    Point(t.lat, t.lng, t.altitude as real, t.accuracy as real, t.battery)
  }

  /** Seven decimals of an integer count of units give the count back. */
  lemma E7Scales(v: int)
    ensures Round(v as real / E7 * E7) == v
  {
    assert v as real / E7 * E7 == v as real;
  }

  lemma ByteIsItself(v: Byte)
    ensures ClampByte(v as real) == v
  {
  }

  lemma WholeIsItself(v: int)
    ensures Round(v as real) == v
  {
  }

  lemma AssembledLocation(p: Point, platform: int -> int, data: seq<Byte>)
    requires IsI32(Round(p.lat * E7)) && IsI32(Round(p.lng * E7)) && IsI16(Round(p.altitude))
    requires |data| == 15 && data[..2] == [PROTOCOL_VERSION_V1, 1]
    requires PackI32(Round(p.lat * E7)) == data[2..6] && PackI32(Round(p.lng * E7)) == data[6..10]
    requires PackI16(Round(p.altitude)) == data[10..12]
    requires data[12..] == [ClampByte(p.accuracy), p.battery, 1]
    ensures LocationBytes(p, platform) == data
  {
    assert data == data[..2] + data[2..6] + data[6..10] + data[10..12] + data[12..];
  }

  /** Accepted bytes that claim a GPS fix are exactly what the encoder makes of their content. */
  lemma LocationReencodes(data: seq<Byte>, platform: int -> int)
    requires DecodeLocation(data).Ok? && data[14] == 1
    ensures LocationBytes(PointOf(DecodeLocation(data).value), platform) == data
  {
    var p := PointOf(DecodeLocation(data).value);
    var lat, lng, alt := UnpackI32(data[2..6]), UnpackI32(data[6..10]), UnpackI16(data[10..12]);
    I32RoundTrip(0, data[2..6]);
    I32RoundTrip(0, data[6..10]);
    I16RoundTrip(0, data[10..12]);
    E7Scales(lat);
    E7Scales(lng);
    WholeIsItself(alt);
    ByteIsItself(data[12]);
    assert p == Point(lat as real / E7, lng as real / E7, alt as real, data[12] as real, data[13]);
    AssembledLocation(p, platform, data);
  }

  // ----- The contract byte by byte

  /** Which commands can be sent, and the bytes that are sent: version, type, number, flags, parameter. */
  lemma BytesExactly(t: CommandType, seqNo: int, f: Fields)
    ensures var r := EncodeCommand(t, seqNo, f);
            var head := [seqNo / 256, seqNo % 256, f.flags];
            if !(1 <= seqNo <= 65535) || !(0 <= f.flags <= 255) then r.Err?
            else
              match t
              case SetReportInterval =>
                if f.intervalSeconds.Some? && 1 <= f.intervalSeconds.value <= 65535
                then r == Ok([1, 1] + head + [f.intervalSeconds.value / 256, f.intervalSeconds.value % 256])
                else r.Err?
              case WarningSound =>
                if f.durationSeconds.Some? then
                  if 1 <= f.durationSeconds.value <= 255 then r == Ok([1, 2] + head + [f.durationSeconds.value])
                  else r.Err?
                else if f.durationMs.Some? && f.durationMs.value <= 255_000
                then r == Ok([1, 2] + head + [WholeSeconds(f.durationMs.value)])
                else r.Err?
              case StopCorrection => r == Ok([1, 3] + head)
              case RequestStatus => r == Ok([1, 4] + head)
              case _ => r.Err?
  {
    if f.durationMs.Some? {
      RoundedUp(f.durationMs.value);
    }
    if EncodeCommand(t, seqNo, f).Ok? {
      var head: seq<Byte> := [seqNo / 256, seqNo % 256, f.flags];
      var bytes: seq<Byte> := [PROTOCOL_VERSION_V1, TypeCode(t).value] + head;
      assert [PROTOCOL_VERSION_V1, TypeCode(t).value] + PackU16(seqNo) + [f.flags] == bytes;
      assert bytes + [] == bytes;
    }
  }

  /** Milliseconds in whole seconds, rounded up, and at least one. */
  function WholeSeconds(millis: int): int {
    if millis <= 1000 then 1 else (millis + 999) / 1000
  }

  lemma RoundedUp(millis: int)
    ensures Max(1, CeilDiv(millis, 1000)) == WholeSeconds(millis)
    ensures WholeSeconds(millis) <= 255 <==> millis <= 255_000
  {
  }

  /** The five acknowledgement codes; every other code is refused. */
  lemma AckCodesExactly(hi: Byte, lo: Byte, code: Byte, error: Byte)
    requires hi != 0 || lo != 0
    ensures var r, n := DecodeAck([1, hi, lo, code, error]), hi * 256 + lo;
            match code
            case 1 => r == Ok(AckPayload(n, Executed, error))
            case 2 => r == Ok(AckPayload(n, Rejected, error))
            case 3 => r == Ok(AckPayload(n, Failed, error))
            case 4 => r == Ok(AckPayload(n, Expired, error))
            case 5 => r == Ok(AckPayload(n, Duplicate, error))
            case _ => r == Err(AckUnknownStatus)
  {
    assert [1, hi, lo, code, error][1..3] == [hi, lo];
  }

  /** Which location payloads are accepted and what is read from them; without a fix the accuracy is
      the worst there is, whatever the device reports. */
  lemma LocationExactly(b: seq<Byte>)
    ensures var r := DecodeLocation(b);
            if |b| != 15 || b[0] != 1 || b[1] != 1 || b[14] > 3 then r.Err?
            else
              var lat, lng := UnpackI32(b[2..6]), UnpackI32(b[6..10]);
              if !(-900_000_000 <= lat <= 900_000_000) || !(-1_800_000_000 <= lng <= 1_800_000_000) then r.Err?
              else
                r == Ok(Telemetry(lat as real / 10000000.0, lng as real / 10000000.0, UnpackI16(b[10..12]),
                                  if b[14] == 0 then 255 else b[12], b[13], b[14]))
  {
  }

  /** The bytes of an integer, most significant first; the upper half of the range is negative. */
  lemma BytesOfIntegers(b: seq<Byte>)
    requires |b| == 4
    ensures var u := (((b[0] as int) * 256 + b[1]) * 256 + b[2]) * 256 + b[3];
            UnpackI32(b) == if b[0] < 128 then u else u - 0x1_0000_0000
    ensures var u := (b[0] as int) * 256 + b[1];
            UnpackI16(b[..2]) == if b[0] < 128 then u else u - 0x1_0000
  {
  }
}
