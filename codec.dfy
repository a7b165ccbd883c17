/**
 * The binary frames exchanged with the load-cell firmware. Every frame is
 * the magic 0xA1B2 written little-endian (bytes B2 A1), the version byte
 * 0x01, a type byte, a fixed payload and the little-endian CRC-16 of all
 * the bytes before it. The device sends DATA, CONFIG and STATUS frames; the
 * server sends TARA, CALIBRATE, GET_CONFIG and SET_PARAM commands.
 */
module Codec {
  import opened Wrappers
  import opened Bytes
  import opened Crc16
  import opened Json

  const MAGIC: nat := 0xA1B2
  const VERSION: byte := 0x01

  const TYPE_DATA: byte := 0x01
  const TYPE_CONFIG: byte := 0x02
  const TYPE_STATUS: byte := 0x03
  const CMD_TARA: byte := 0x10
  const CMD_CALIBRATE: byte := 0x11
  const CMD_GET_CONFIG: byte := 0x12
  const CMD_SET_PARAM: byte := 0x13

  const SIZE_DATA: nat := 16
  const SIZE_CONFIG: nat := 64
  const SIZE_STATUS: nat := 14
  const SIZE_CMD_TARA: nat := 8
  const SIZE_CMD_CALIB: nat := 10
  const SIZE_CMD_GETCONF: nat := 8
  const SIZE_CMD_SETPAR: nat := 18

  /** The four header bytes `<HBB` of a frame of type `t`. */
  function Header(t: byte): (r: seq<byte>)
    ensures |r| == 4 && U16At(r, 0) == MAGIC && r[2] == VERSION && r[3] == t
  {
    [0xB2, 0xA1, VERSION, t]
  }

  /** The magic field reads 0xA1B2 exactly when the first two bytes are B2 A1. */
  lemma MagicBytes(d: seq<byte>)
    requires |d| >= 2
    ensures U16At(d, 0) == MAGIC <==> d[0] == 0xB2 && d[1] == 0xA1
  {
    if U16At(d, 0) == MAGIC {
      assert d[0] as int == MAGIC - 256 * d[1] as int;
    }
  }

  /** Magic, version and type as every decoder checks them. */
  predicate HeaderOk(d: seq<byte>, t: byte) {
    |d| >= 4 && U16At(d, 0) == MAGIC && d[2] == VERSION && d[3] == t
  }

  /** The trailing `<H` equals the CRC of everything before it. */
  predicate CrcOk(d: seq<byte>) {
    |d| >= 2 && U16At(d, |d| - 2) == Crc(d[..|d| - 2])
  }

  /** Appends the little-endian CRC of `body`, as every sender does. */
  function Seal(body: seq<byte>): (r: seq<byte>)
    ensures |r| == |body| + 2 && r[..|body|] == body
  {
    body + Le16(Crc(body))
  }

  /** A sealed frame passes the CRC check, and every frame that passes it is sealed. */
  lemma SealCrcOk(d: seq<byte>)
    ensures CrcOk(d) <==> |d| >= 2 && d == Seal(d[..|d| - 2])
  {
    if |d| >= 2 {
      if CrcOk(d) {
        CrcOkIsSealed(d);
      }
      if d == Seal(d[..|d| - 2]) {
        SealedIsCrcOk(d[..|d| - 2]);
      }
    }
  }

  lemma SealedIsCrcOk(body: seq<byte>)
    ensures CrcOk(Seal(body))
  {
    var d := Seal(body);
    assert d[..|body|] == body;
    assert d[|body|..|body| + 2] == Le16(Crc(body));
    Le16RoundTrip(Crc(body), d, |body|);
  }

  lemma CrcOkIsSealed(d: seq<byte>)
    requires CrcOk(d)
    ensures d == Seal(d[..|d| - 2])
  {
    var body := d[..|d| - 2];
    U16AtInverse(d, |d| - 2);
    assert d == body + d[|d| - 2..];
  }

  // ---------------------------------------------------------------------------
  // DATA

  /** The dict `parse_data_packet` returns. */
  function DataEvent(tMs: u32, forceBits: u32, status: byte): JValue {
    JObject(map[
      "type" := JStr("data"),
      "tempo" := JFloat(Decimal(tMs as real / 1000.0)),
      "forca" := JFloat(Single(forceBits)),
      "status" := JInt(status)])
  }

  /** `parse_data_packet`: the `<HBBIfBxH` frame of 16 bytes. */
  function DecodeData(d: seq<byte>): (r: Option<JValue>)
    ensures r.Some? ==> |d| == SIZE_DATA && HeaderOk(d, TYPE_DATA) && CrcOk(d)
  {
    if |d| != SIZE_DATA then None
    else if U16At(d, 0) != MAGIC || d[2] != VERSION || d[3] != TYPE_DATA then None
    else if Crc(d[..|d| - 2]) != U16At(d, 14) then None
    else Some(DataEvent(U32At(d, 4), U32At(d, 8), d[12]))
  }

  /** The DATA frame a device sends: time in ms, the binary32 force, the status byte and a padding byte. */
  function DataFrame(tMs: u32, forceBits: u32, status: byte, pad: byte): (r: seq<byte>)
    ensures |r| == SIZE_DATA
  {
    Seal(Header(TYPE_DATA) + Le32(tMs) + Le32(forceBits) + [status, pad])
  }

  /** A DATA frame decodes to its time in seconds, its force and its status, whatever the padding byte. */
  lemma DataRoundTrip(tMs: u32, forceBits: u32, status: byte, pad: byte)
    ensures DecodeData(DataFrame(tMs, forceBits, status, pad)) == Some(DataEvent(tMs, forceBits, status))
  {
    var body := Header(TYPE_DATA) + Le32(tMs) + Le32(forceBits) + [status, pad];
    var d := DataFrame(tMs, forceBits, status, pad);
    assert d[..14] == body;
    SealCrcOk(d);
    Le32RoundTrip(tMs, d, 4);
    Le32RoundTrip(forceBits, d, 8);
  }

  /** Every frame the DATA decoder accepts is a DATA frame of the fields it reports. */
  lemma DataAcceptedIsFrame(d: seq<byte>)
    requires DecodeData(d).Some?
    ensures d == DataFrame(U32At(d, 4), U32At(d, 8), d[12], d[13])
    ensures DecodeData(d) == Some(DataEvent(U32At(d, 4), U32At(d, 8), d[12]))
  {
    SealCrcOk(d);
    MagicBytes(d);
    U32AtInverse(d, 4);
    U32AtInverse(d, 8);
    assert d[..14] == Header(TYPE_DATA) + d[4..8] + d[8..12] + [d[12], d[13]];
  }

  // ---------------------------------------------------------------------------
  // CONFIG

  /** A binary32 field of the config block. */
  function F32Field(d: seq<byte>, i: nat): JValue
    requires i + 4 <= |d|
  {
    JFloat(Single(U32At(d, i)))
  }

  /** The dict built from the `<ffHfHHBBHiffB23x` block at offset 4, before sanitising. */
  function ConfigFields(d: seq<byte>): map<string, JValue>
    requires |d| == SIZE_CONFIG
  {
    map[
      "type" := JStr("config"),
      "conversionFactor" := F32Field(d, 4),
      "gravity" := F32Field(d, 8),
      "leiturasEstaveis" := JInt(U16At(d, 12)),
      "toleranciaEstabilidade" := F32Field(d, 14),
      "numAmostrasMedia" := JInt(U16At(d, 18)),
      "numAmostrasCalibracao" := JInt(U16At(d, 20)),
      "usarMediaMovel" := JInt(d[22]),
      "usarEMA" := JInt(d[23]),
      "timeoutCalibracao" := JInt(U16At(d, 24)),
      "tareOffset" := JInt(I32At(d, 26)),
      "capacidadeMaximaGramas" := F32Field(d, 30),
      "percentualAcuracia" := F32Field(d, 34),
      "mode" := JInt(d[38])]
  }

  /** `parse_config_packet`: a 64-byte frame; the dict is sanitised before it is returned. */
  function DecodeConfig(d: seq<byte>): (r: Option<JValue>)
    ensures r.Some? ==> |d| == SIZE_CONFIG && HeaderOk(d, TYPE_CONFIG) && CrcOk(d)
    ensures r.Some? ==> Clean(r.value) && r.value.JObject?
  {
    if |d| != SIZE_CONFIG then None
    else if U16At(d, 0) != MAGIC || d[2] != VERSION || d[3] != TYPE_CONFIG then None
    else if Crc(d[..|d| - 2]) != U16At(d, SIZE_CONFIG - 2) then None
    else Some(Sanitize(JObject(ConfigFields(d))))
  }

  /** A CONFIG frame carrying the 58-byte block `payload` (the fields and 23 reserved bytes). */
  function ConfigFrame(payload: seq<byte>): (r: seq<byte>)
    requires |payload| == 58
    ensures |r| == SIZE_CONFIG
  {
    Seal(Header(TYPE_CONFIG) + payload)
  }

  /** A CONFIG frame is accepted whatever its 58-byte block holds, reserved bytes included. */
  lemma ConfigRoundTrip(payload: seq<byte>)
    requires |payload| == 58
    ensures DecodeConfig(ConfigFrame(payload)).Some?
    ensures ConfigFrame(payload)[4..62] == payload
  {
    var d := ConfigFrame(payload);
    assert d[..62] == Header(TYPE_CONFIG) + payload;
    SealCrcOk(d);
  }

  /** What `sanitize_for_json` makes of a binary32 field. */
  function FiniteOrNull(bits: u32): JValue {
    if IsFinite(Single(bits)) then JFloat(Single(bits)) else JNull
  }

  /** The decoded config is the sanitised field dict, key by key. */
  lemma ConfigDecoded(d: seq<byte>)
    requires DecodeConfig(d).Some?
    ensures DecodeConfig(d).value.fields.Keys == ConfigFields(d).Keys
    ensures forall k :: k in ConfigFields(d) ==> DecodeConfig(d).value.fields[k] == Sanitize(ConfigFields(d)[k])
  {
    SanitizeFields(ConfigFields(d));
  }

  /** The integer fields of the config block, as the layout places them. */
  lemma ConfigIntFields(d: seq<byte>)
    requires |d| == SIZE_CONFIG
    ensures var m := ConfigFields(d);
      m["type"] == JStr("config") &&
      m["leiturasEstaveis"] == JInt(U16At(d, 12)) &&
      m["numAmostrasMedia"] == JInt(U16At(d, 18)) &&
      m["numAmostrasCalibracao"] == JInt(U16At(d, 20)) &&
      m["usarMediaMovel"] == JInt(d[22]) &&
      m["usarEMA"] == JInt(d[23]) &&
      m["timeoutCalibracao"] == JInt(U16At(d, 24)) &&
      m["tareOffset"] == JInt(I32At(d, 26)) &&
      m["mode"] == JInt(d[38])
  {
  }

  /** The binary32 fields of the config block, as the layout places them. */
  lemma ConfigFloatFields(d: seq<byte>)
    requires |d| == SIZE_CONFIG
    ensures var m := ConfigFields(d);
      m["conversionFactor"] == JFloat(Single(U32At(d, 4))) &&
      m["gravity"] == JFloat(Single(U32At(d, 8))) &&
      m["toleranciaEstabilidade"] == JFloat(Single(U32At(d, 14))) &&
      m["capacidadeMaximaGramas"] == JFloat(Single(U32At(d, 30))) &&
      m["percentualAcuracia"] == JFloat(Single(U32At(d, 34)))
  {
  }

  /** The decoded config reports every integer field as it is. */
  lemma ConfigIntValues(d: seq<byte>)
    requires DecodeConfig(d).Some?
    ensures var m := DecodeConfig(d).value.fields;
      m["type"] == JStr("config") &&
      m["leiturasEstaveis"] == JInt(U16At(d, 12)) &&
      m["numAmostrasMedia"] == JInt(U16At(d, 18)) &&
      m["numAmostrasCalibracao"] == JInt(U16At(d, 20)) &&
      m["usarMediaMovel"] == JInt(d[22]) &&
      m["usarEMA"] == JInt(d[23]) &&
      m["timeoutCalibracao"] == JInt(U16At(d, 24)) &&
      m["tareOffset"] == JInt(I32At(d, 26)) &&
      m["mode"] == JInt(d[38])
  {
    ConfigDecoded(d);
    ConfigIntFields(d);
  }

  /** The decoded config reports a binary32 field as it is unless it is NaN or infinite, which becomes None. */
  lemma ConfigFloatValues(d: seq<byte>)
    requires DecodeConfig(d).Some?
    ensures var m := DecodeConfig(d).value.fields;
      m["conversionFactor"] == FiniteOrNull(U32At(d, 4)) &&
      m["gravity"] == FiniteOrNull(U32At(d, 8)) &&
      m["toleranciaEstabilidade"] == FiniteOrNull(U32At(d, 14)) &&
      m["capacidadeMaximaGramas"] == FiniteOrNull(U32At(d, 30)) &&
      m["percentualAcuracia"] == FiniteOrNull(U32At(d, 34))
  {
    ConfigDecoded(d);
    ConfigFloatFields(d);
    SanitizeSingle(U32At(d, 4));
    SanitizeSingle(U32At(d, 8));
    SanitizeSingle(U32At(d, 14));
    SanitizeSingle(U32At(d, 30));
    SanitizeSingle(U32At(d, 34));
  }

  lemma SanitizeSingle(bits: u32)
    ensures Sanitize(JFloat(Single(bits))) == FiniteOrNull(bits)
  {
  }

  lemma SanitizeFields(m: map<string, JValue>)
    ensures Sanitize(JObject(m)).fields.Keys == m.Keys
    ensures forall k :: k in m ==> Sanitize(JObject(m)).fields[k] == Sanitize(m[k])
  {
  }

  /** Every frame the CONFIG decoder accepts is a CONFIG frame. */
  lemma ConfigAcceptedIsFrame(d: seq<byte>)
    requires DecodeConfig(d).Some?
    ensures d == ConfigFrame(d[4..62])
  {
    SealCrcOk(d);
    MagicBytes(d);
    assert d[..62] == Header(TYPE_CONFIG) + d[4..62];
  }

  // ---------------------------------------------------------------------------
  // STATUS

  /** The `type_map` lookup, defaulting to "info". */
  function KindName(kind: byte): (r: string)
    ensures r in {"info", "success", "warning", "error"}
  {
    if kind == 1 then "success"
    else if kind == 2 then "warning"
    else if kind == 3 then "error"
    else "info"
  }

  /** The four known kinds have four different names; every other kind reads as kind 0. */
  lemma KindNames(a: byte, b: byte)
    ensures a <= 3 && b <= 3 ==> (KindName(a) == KindName(b) <==> a == b)
    ensures a > 3 ==> KindName(a) == KindName(0)
  {
  }

  /** One upper-case hexadecimal digit. */
  function HexDigit(n: nat): (c: char)
    requires n < 16
    ensures '0' <= c <= '9' || 'A' <= c <= 'F'
  {
    if n < 10 then ('0' as int + n) as char else ('A' as int + n - 10) as char
  }

  /** `code` in two upper-case hexadecimal digits, as `f"{code:02X}"` renders a byte. */
  function Hex2(code: byte): (r: string)
    ensures |r| == 2
  {
    [HexDigit(code / 16), HexDigit(code % 16)]
  }

  function HexValue(c: char): (r: Option<nat>)
    ensures r.Some? ==> r.value < 16 && HexDigit(r.value) == c
  {
    if '0' <= c <= '9' then Some(c as int - '0' as int)
    else if 'A' <= c <= 'F' then Some(c as int - 'A' as int + 10)
    else None
  }

  /** Reads back two upper-case hexadecimal digits. */
  function ParseHex2(s: string): (r: Option<byte>)
    ensures r.Some? ==> |s| == 2 && Hex2(r.value) == s
  {
    if |s| != 2 then None
    else match (HexValue(s[0]), HexValue(s[1]))
      case (Some(h), Some(l)) => Some(16 * h + l)
      case _ => None
  }

  /** The rendered code reads back as the same code. */
  lemma Hex2RoundTrip(code: byte)
    ensures ParseHex2(Hex2(code)) == Some(code)
  {
    assert HexValue(HexDigit(code / 16)) == Some(code / 16);
    assert HexValue(HexDigit(code % 16)) == Some(code % 16);
  }

  const STATUS_PREFIX: string := "Status code: "

  /** The `messages` lookup, defaulting to the code in hexadecimal. */
  function StatusMessage(code: byte): string {
    if code == 0x10 then "Tara concluída"
    else if code == 0x11 then "Calibração concluída"
    else if code == 0x12 then "Calibração falhou"
    else STATUS_PREFIX + Hex2(code)
  }

  /** Different codes never render to the same message: the code can be read back from it. */
  lemma StatusMessageInjective(a: byte, b: byte)
    requires StatusMessage(a) == StatusMessage(b)
    ensures a == b
  {
    var known := {0x10, 0x11, 0x12};
    if a !in known && b !in known {
      var ma, mb := StatusMessage(a), StatusMessage(b);
      assert ma[13..] == Hex2(a) && mb[13..] == Hex2(b);
      Hex2RoundTrip(a);
      Hex2RoundTrip(b);
    }
  }

  /** The dict `parse_status_packet` returns. */
  function StatusEvent(kind: byte, code: byte, value: nat, timestamp: u32): JValue {
    JObject(map[
      "type" := JStr("status"),
      "status" := JStr(KindName(kind)),
      "message" := JStr(StatusMessage(code)),
      "code" := JInt(code),
      "value" := JInt(value),
      "timestamp" := JFloat(Decimal(timestamp as real / 1000.0))])
  }

  /** `parse_status_packet`: the `<HBBBBHIH` frame of 14 bytes; unknown kinds and codes are still decoded. */
  function DecodeStatus(d: seq<byte>): (r: Option<JValue>)
    ensures r.Some? ==> |d| == SIZE_STATUS && HeaderOk(d, TYPE_STATUS) && CrcOk(d)
  {
    if |d| != SIZE_STATUS then None
    else if U16At(d, 0) != MAGIC || d[2] != VERSION || d[3] != TYPE_STATUS then None
    else if Crc(d[..|d| - 2]) != U16At(d, 12) then None
    else Some(StatusEvent(d[4], d[5], U16At(d, 6), U32At(d, 8)))
  }

  /** The STATUS frame a device sends. */
  function StatusFrame(kind: byte, code: byte, value: nat, timestamp: u32): (r: seq<byte>)
    requires value < TWO16
    ensures |r| == SIZE_STATUS
  {
    Seal(Header(TYPE_STATUS) + [kind, code] + Le16(value) + Le32(timestamp))
  }

  /** Any kind and any code decode, so a STATUS frame is never dropped for its content. */
  lemma StatusRoundTrip(kind: byte, code: byte, value: nat, timestamp: u32)
    requires value < TWO16
    ensures DecodeStatus(StatusFrame(kind, code, value, timestamp)) == Some(StatusEvent(kind, code, value, timestamp))
  {
    var d := StatusFrame(kind, code, value, timestamp);
    assert d[..12] == Header(TYPE_STATUS) + [kind, code] + Le16(value) + Le32(timestamp);
    SealCrcOk(d);
    Le16RoundTrip(value, d, 6);
    Le32RoundTrip(timestamp, d, 8);
  }

  /** Every frame the STATUS decoder accepts is a STATUS frame of the fields it reports. */
  lemma StatusAcceptedIsFrame(d: seq<byte>)
    requires DecodeStatus(d).Some?
    ensures d == StatusFrame(d[4], d[5], U16At(d, 6), U32At(d, 8))
  {
    SealCrcOk(d);
    MagicBytes(d);
    U16AtInverse(d, 6);
    U32AtInverse(d, 8);
    assert d[..12] == Header(TYPE_STATUS) + [d[4], d[5]] + d[6..8] + d[8..12];
  }

  // ---------------------------------------------------------------------------
  // Commands

  /** `dict.get(key, default)`. */
  function Get(m: map<string, JValue>, key: string, default: JValue): JValue {
    if key in m then m[key] else default
  }

  function LowerChar(c: char): char {
    if 'A' <= c <= 'Z' then (c as int - 'A' as int + 'a' as int) as char else c
  }

  /**
   * `str.lower()` restricted to ASCII: Python also lowers non-ASCII
   * letters (and expands a few, such as 'İ'), which this leaves alone.
   * Every command name the dispatcher knows is ASCII, and a name holding
   * a non-ASCII letter is unknown either way, so the outcome agrees.
   */
  function Lower(s: string): (r: string)
    ensures |r| == |s|
    ensures forall i :: 0 <= i < |s| ==> !('A' <= r[i] <= 'Z')
    ensures forall i :: 0 <= i < |s| ==>
      if 'A' <= s[i] <= 'Z' then r[i] as int == s[i] as int + 32 else r[i] == s[i]
  {
    seq(|s|, i requires 0 <= i < |s| => LowerChar(s[i]))
  }

  lemma LowerKeepsLower(s: string)
    requires forall i :: 0 <= i < |s| ==> !('A' <= s[i] <= 'Z')
    ensures Lower(s) == s
  {
  }

  /**
   * The number conversions of Python the encoder relies on and this model
   * takes as parameters: `packReal` rounds a finite value to a binary32
   * pattern for `struct.pack("<f", …)` (None where Python raises
   * OverflowError); `floatOfText` and `intOfText` are `float(s)` and
   * `int(s)` on a string, None where Python raises ValueError.
   */
  datatype PyNumbers = PyNumbers(
    packReal: real -> Option<u32>,
    floatOfText: string -> Option<Float>,
    intOfText: string -> Option<int>)

  /** Python's `float(v)` on what `json.loads` can produce; None where it raises (null, lists, objects). */
  function PyFloat(v: JValue, py: PyNumbers): (r: Option<Float>)
    ensures r.None? <==> v.JNull? || v.JList? || v.JObject? || (v.JStr? && py.floatOfText(v.s).None?)
    ensures v.JFloat? ==> r == Some(v.f)
  {
    match v
    case JInt(i) => Some(Decimal(i as real))
    case JBool(b) => Some(Decimal(if b then 1.0 else 0.0))
    case JFloat(f) => Some(f)
    case JStr(s) => py.floatOfText(s)
    case _ => None
  }

  /** Truncation toward zero, as `int(x)` does to a float. */
  function Trunc(r: real): (n: int)
    ensures r >= 0.0 ==> 0.0 <= n as real <= r < n as real + 1.0
    ensures r < 0.0 ==> n as real - 1.0 < r <= n as real <= 0.0
  {
    if r >= 0.0 then r.Floor else -((-r).Floor)
  }

  /** Python's `int(v)`: NaN and infinities raise, floats truncate toward zero, strings go through `int(s)`. */
  function PyInt(v: JValue, py: PyNumbers): (r: Option<int>)
    ensures r.None? <==> v.JNull? || v.JList? || v.JObject? || (v.JFloat? && !v.f.Decimal?) ||
                         (v.JStr? && py.intOfText(v.s).None?)
    ensures v.JFloat? && v.f.Decimal? ==> r.Some? && -1.0 < r.value as real - v.f.value < 1.0
  {
    match v
    case JInt(i) => Some(i)
    case JBool(b) => Some(if b then 1 else 0)
    case JFloat(Decimal(r)) => Some(Trunc(r))
    case JStr(s) => py.intOfText(s)
    case _ => None
  }

  /** `f > 0` on a Python float; for binary32 bits: sign clear, not zero, not NaN. */
  predicate Positive(f: Float) {
    match f
    case Single(bits) => 0 < bits <= 0x7F80_0000
    case Decimal(r) => r > 0.0
    case NaN => false
    case Infinity(negative) => !negative
  }

  /**
   * `struct.pack("<f", f)` as a 32-bit pattern. Rounding a finite value to
   * binary32 is the parameter `packReal`, which answers None where Python
   * raises OverflowError.
   */
  function PackF32(f: Float, packReal: real -> Option<u32>): Option<u32> {
    match f
    case Single(bits) => Some(bits)
    case Decimal(r) => packReal(r)
    case NaN => Some(0x7FC0_0000)
    case Infinity(negative) => Some(if negative then 0xFF80_0000 else 0x7F80_0000)
  }

  datatype ParamKind = FloatParam | UnsignedParam | SignedParam

  /** The `param_map` table: parameter name to id and `struct` code. */
  const PARAMS: map<string, (byte, ParamKind)> := map[
    "gravity" := (0x01, FloatParam),
    "conversionFactor" := (0x02, FloatParam),
    "leiturasEstaveis" := (0x03, UnsignedParam),
    "toleranciaEstabilidade" := (0x04, FloatParam),
    "mode" := (0x05, UnsignedParam),
    "usarEMA" := (0x06, UnsignedParam),
    "numAmostrasMedia" := (0x07, UnsignedParam),
    "tareOffset" := (0x08, SignedParam),
    "timeoutCalibracao" := (0x09, UnsignedParam),
    "capacidadeMaximaGramas" := (0x0A, FloatParam),
    "percentualAcuracia" := (0x0B, FloatParam)]

  /** The 16-byte `<HBBB3xfI` body of a SET_PARAM command. */
  function SetParamBody(id: byte, floatBits: u32, intValue: u32): (r: seq<byte>)
    ensures |r| == 16
  {
    Header(CMD_SET_PARAM) + [id, 0, 0, 0] + Le32(floatBits) + Le32(intValue)
  }

  /** The size of each command frame, by type. */
  const CMD_SIZES: map<byte, nat> := map[
    CMD_TARA := SIZE_CMD_TARA, CMD_CALIBRATE := SIZE_CMD_CALIB,
    CMD_GET_CONFIG := SIZE_CMD_GETCONF, CMD_SET_PARAM := SIZE_CMD_SETPAR]

  /** A command frame: a known command type, its exact size, the header and a valid CRC. */
  predicate WellFormedCommand(f: seq<byte>) {
    |f| >= 4 && f[3] in CMD_SIZES && |f| == CMD_SIZES[f[3]] && HeaderOk(f, f[3]) && CrcOk(f)
  }

  /** Sealing a header and a payload gives a frame with that header, that payload and a valid CRC. */
  lemma SealedCommand(t: byte, p: seq<byte>)
    ensures var f := Seal(Header(t) + p);
      |f| == |p| + 6 && HeaderOk(f, t) && CrcOk(f) && f[4..4 + |p|] == p
  {
    var f := Seal(Header(t) + p);
    SealCrcOk(f);
    assert f[..|p| + 4] == Header(t) + p;
  }

  /** The 8-byte TARA or GET_CONFIG frame, whose u16 payload is 0. */
  function EmptyCommand(t: byte): (f: seq<byte>)
    requires t == CMD_TARA || t == CMD_GET_CONFIG
    ensures WellFormedCommand(f) && f[3] == t && U16At(f, 4) == 0
  {
    SealedCommand(t, Le16(0));
    Seal(Header(t) + Le16(0))
  }

  function EncodeCalibrate(cmd: map<string, JValue>, py: PyNumbers): (r: Option<seq<byte>>)
    ensures r.Some? ==> WellFormedCommand(r.value) && r.value[3] == CMD_CALIBRATE
  {
    match PyFloat(Get(cmd, "massa_g", JInt(0)), py)
    case None => None
    case Some(massa) =>
      if !Positive(massa) then None
      else match PackF32(massa, py.packReal)
        case None => None
        case Some(bits) =>
          SealedCommand(CMD_CALIBRATE, Le32(bits));
          Some(Seal(Header(CMD_CALIBRATE) + Le32(bits)))
  }

  /**
   * How an integer SET_PARAM value becomes the `I` field. As written, every
   * parameter is packed with the unsigned `I` format, so a negative value
   * (for `tareOffset`, declared signed) makes `struct.pack` raise; with
   * `signedFixed`, a signed parameter is packed as a 32-bit two's complement.
   */
  function PackIntField(kind: ParamKind, i: int, signedFixed: bool): (r: Option<u32>)
    ensures r.Some? && kind == SignedParam && signedFixed ==> (if r.value < 0x8000_0000 then r.value else r.value - TWO32) == i
    ensures r.Some? && (kind != SignedParam || !signedFixed) ==> r.value == i
  {
    if kind == SignedParam && signedFixed then
      if -0x8000_0000 <= i < 0x8000_0000 then Some(if i >= 0 then i else i + TWO32) else None
    else if 0 <= i < TWO32 then Some(i) else None
  }

  /** The sealed 18-byte SET_PARAM frame. */
  function SetParamCommand(id: byte, floatBits: u32, intValue: u32): (f: seq<byte>)
    ensures WellFormedCommand(f) && f[3] == CMD_SET_PARAM && f[..16] == SetParamBody(id, floatBits, intValue)
  {
    var body := SetParamBody(id, floatBits, intValue);
    SealedCommand(CMD_SET_PARAM, body[4..]);
    assert Header(CMD_SET_PARAM) + body[4..] == body;
    Seal(body)
  }

  function EncodeSetParam(cmd: map<string, JValue>, py: PyNumbers, signedFixed: bool): (r: Option<seq<byte>>)
    ensures r.Some? ==> WellFormedCommand(r.value) && r.value[3] == CMD_SET_PARAM
  {
    var param := Get(cmd, "param", JStr(""));
    if !param.JStr? || param.s !in PARAMS then None
    else
      var (id, kind) := PARAMS[param.s];
      var value := Get(cmd, "value", JInt(0));
      if kind == FloatParam then
        match PyFloat(value, py)
        case None => None
        case Some(f) =>
          match PackF32(f, py.packReal)
          case None => None
          case Some(bits) => Some(SetParamCommand(id, bits, 0))
      else
        match PyInt(value, py)
        case None => None
        case Some(i) =>
          match PackIntField(kind, i, signedFixed)
          case None => None
          case Some(field) => Some(SetParamCommand(id, 0, field))
  }

  /** The command name as the encoder matches it: `cmd.get("cmd", "").lower()`, None when that raises. */
  function CommandName(cmd: map<string, JValue>): (r: Option<string>)
    ensures r.Some? <==> Get(cmd, "cmd", JStr("")).JStr?
    ensures r.Some? ==> |r.value| == |Get(cmd, "cmd", JStr("")).s|
    ensures "cmd" !in cmd ==> r == Some("")
  {
    var name := Get(cmd, "cmd", JStr(""));
    if name.JStr? then Some(Lower(name.s)) else None
  }

  function EncodeWith(cmd: map<string, JValue>, py: PyNumbers, signedFixed: bool): (r: Option<seq<byte>>)
    ensures r.Some? ==> WellFormedCommand(r.value)
  {
    match CommandName(cmd)
    case None => None
    case Some(n) =>
      if n == "t" || n == "tara" then Some(EmptyCommand(CMD_TARA))
      else if n == "c" || n == "calibrate" then EncodeCalibrate(cmd, py)
      else if n == "get_config" then Some(EmptyCommand(CMD_GET_CONFIG))
      else if n == "set" || n == "set_param" then EncodeSetParam(cmd, py, signedFixed)
      else None
  }

  /**
   * `json_to_binary_command` as written: the command frame for a client's
   * JSON command, or None when the command is unknown, its argument is
   * unusable, or Python would raise (a name that is not a string, a value
   * that `float`, `int` or `struct.pack` rejects).
   */
  function EncodeCommand(cmd: map<string, JValue>, py: PyNumbers): (r: Option<seq<byte>>)
    ensures r.Some? ==> WellFormedCommand(r.value)
  {
    EncodeWith(cmd, py, false)
  }

  /** The encoder with a signed SET_PARAM value packed as two's complement. */
  function EncodeCommandCorrected(cmd: map<string, JValue>, py: PyNumbers): (r: Option<seq<byte>>)
    ensures r.Some? ==> WellFormedCommand(r.value)
  {
    EncodeWith(cmd, py, true)
  }

  /** The frame type each command name selects, None for any other name. */
  function NameType(n: string): Option<byte> {
    if n == "t" || n == "tara" then Some(CMD_TARA)
    else if n == "c" || n == "calibrate" then Some(CMD_CALIBRATE)
    else if n == "get_config" then Some(CMD_GET_CONFIG)
    else if n == "set" || n == "set_param" then Some(CMD_SET_PARAM)
    else None
  }

  /** The dispatch ignores ASCII case: shouted and mixed-case names select the same frame type. */
  lemma NameCaseIgnored()
    ensures NameType(Lower("TARA")) == NameType(Lower("Tara")) == Some(CMD_TARA)
    ensures NameType(Lower("C")) == NameType(Lower("Calibrate")) == Some(CMD_CALIBRATE)
    ensures NameType(Lower("GET_CONFIG")) == Some(CMD_GET_CONFIG)
    ensures NameType(Lower("SET")) == NameType(Lower("Set_Param")) == Some(CMD_SET_PARAM)
  {
    assert Lower("TARA") == "tara" && Lower("Tara") == "tara";
    assert Lower("C") == "c" && Lower("Calibrate") == "calibrate";
    assert Lower("GET_CONFIG") == "get_config";
    assert Lower("SET") == "set" && Lower("Set_Param") == "set_param";
  }

  /**
   * A frame is produced only for a known command name and has the type that
   * name selects; TARA and GET_CONFIG always produce their frame, an unknown
   * name or a name that is not a string never produces one.
   */
  lemma EncodeFollowsName(cmd: map<string, JValue>, py: PyNumbers)
    ensures var r := EncodeCommand(cmd, py);
      (r.Some? ==> CommandName(cmd).Some? && NameType(CommandName(cmd).value) == Some(r.value[3])) &&
      (CommandName(cmd).None? || NameType(CommandName(cmd).value).None? ==> r.None?) &&
      (CommandName(cmd).Some? && NameType(CommandName(cmd).value) == Some(CMD_TARA) ==>
         r.Some? && |r.value| == SIZE_CMD_TARA && U16At(r.value, 4) == 0) &&
      (CommandName(cmd).Some? && NameType(CommandName(cmd).value) == Some(CMD_GET_CONFIG) ==>
         r.Some? && |r.value| == SIZE_CMD_GETCONF && U16At(r.value, 4) == 0)
  {
  }

  /**
   * CALIBRATE is sent exactly when `massa_g` converts to a float greater
   * than zero that packs into binary32 (so never when it is missing), and its
   * payload is that binary32 value.
   */
  lemma CalibrateFrame(cmd: map<string, JValue>, py: PyNumbers)
    requires CommandName(cmd) == Some("c") || CommandName(cmd) == Some("calibrate")
    ensures var r := EncodeCommand(cmd, py);
      var massa := PyFloat(Get(cmd, "massa_g", JInt(0)), py);
      (r.Some? <==> massa.Some? && Positive(massa.value) && PackF32(massa.value, py.packReal).Some?) &&
      (r.Some? ==> |r.value| == SIZE_CMD_CALIB && U32At(r.value, 4) == PackF32(massa.value, py.packReal).value) &&
      ("massa_g" !in cmd ==> r.None?)
  {
    var r := EncodeCommand(cmd, py);
    var massa := PyFloat(Get(cmd, "massa_g", JInt(0)), py);
    if r.Some? {
      var bits := PackF32(massa.value, py.packReal).value;
      SealedCommand(CMD_CALIBRATE, Le32(bits));
      Le32RoundTrip(bits, r.value, 4);
    }
  }

  /**
   * A SET_PARAM request the encoder can serve as written: a parameter of the
   * table whose value converts with `float` (and packs) for a float
   * parameter, or with `int` (and fits the unsigned `I` field) otherwise.
   */
  predicate SetParamConverts(param: JValue, value: JValue, py: PyNumbers) {
    param.JStr? && param.s in PARAMS &&
    (PARAMS[param.s].1 == FloatParam ==>
       PyFloat(value, py).Some? && PackF32(PyFloat(value, py).value, py.packReal).Some?) &&
    (PARAMS[param.s].1 != FloatParam ==>
       PyInt(value, py).Some? && PackIntField(PARAMS[param.s].1, PyInt(value, py).value, false).Some?)
  }

  /**
   * SET_PARAM is sent exactly for a parameter of the table whose value
   * converts, with its id; a float parameter fills the `f` field and leaves
   * the `I` field 0, an integer parameter fills the `I` field and leaves the
   * `f` field 0.0.
   */
  lemma SetParamFrame(cmd: map<string, JValue>, py: PyNumbers)
    requires CommandName(cmd) == Some("set") || CommandName(cmd) == Some("set_param")
    ensures var r := EncodeCommand(cmd, py);
      r.Some? <==> SetParamConverts(Get(cmd, "param", JStr("")), Get(cmd, "value", JInt(0)), py)
    ensures var r := EncodeCommand(cmd, py);
      var param := Get(cmd, "param", JStr(""));
      var value := Get(cmd, "value", JInt(0));
      r.Some? ==>
        param.JStr? && param.s in PARAMS && |r.value| == SIZE_CMD_SETPAR &&
        r.value[4] == PARAMS[param.s].0 &&
        (PARAMS[param.s].1 == FloatParam ==>
           PyFloat(value, py).Some? && Some(U32At(r.value, 8)) == PackF32(PyFloat(value, py).value, py.packReal) &&
           U32At(r.value, 12) == 0) &&
        (PARAMS[param.s].1 != FloatParam ==>
           U32At(r.value, 8) == 0 && Some(U32At(r.value, 12) as int) == PyInt(value, py))
  {
    var r := EncodeCommand(cmd, py);
    if r.Some? {
      var param := Get(cmd, "param", JStr(""));
      var (id, kind) := PARAMS[param.s];
      var value := Get(cmd, "value", JInt(0));
      var fb, ib :=
        if kind == FloatParam then PackF32(PyFloat(value, py).value, py.packReal).value else 0,
        if kind == FloatParam then 0 else PackIntField(kind, PyInt(value, py).value, false).value;
      var body := SetParamBody(id, fb, ib);
      assert r.value == SetParamCommand(id, fb, ib);
      Le32RoundTrip(fb, r.value, 8);
      Le32RoundTrip(ib, r.value, 12);
    }
  }

  /** A SET_PARAM command for `tareOffset` with value `i`. */
  function TareOffsetCommand(i: int): map<string, JValue> {
    map["cmd" := JStr("set_param"), "param" := JStr("tareOffset"), "value" := JInt(i)]
  }

  /** As written, a negative tare offset produces no frame at all. */
  lemma NegativeTareOffsetDropped(i: int, py: PyNumbers)
    requires i < 0
    ensures EncodeCommand(TareOffsetCommand(i), py).None?
  {
    LowerKeepsLower("set_param");
  }

  /** Corrected, every 32-bit tare offset is sent, and its field reads back as the same signed value. */
  lemma TareOffsetCorrected(i: int, py: PyNumbers)
    requires -0x8000_0000 <= i < 0x8000_0000
    ensures var r := EncodeCommandCorrected(TareOffsetCommand(i), py);
      r.Some? && r.value[4] == 0x08 && I32At(r.value, 12) == i
  {
    var cmd := TareOffsetCommand(i);
    LowerKeepsLower("set_param");
    var field := PackIntField(SignedParam, i, true).value;
    var r := EncodeCommandCorrected(cmd, py);
    assert r.value == SetParamCommand(0x08, 0, field);
    Le32RoundTrip(field, r.value, 12);
  }
}
