/**
 * The browser worker between the page and the host gateway: the WebSocket
 * address it connects to, the text commands it turns into JSON for the host,
 * and the buffer of force readings it hands to the page on request.
 */
module DataWorker {
  import opened Wrappers
  import opened JsText
  import opened JsNumber
  import opened Json
  import opened Bytes
  import Codec

  // ---------------------------------------------------------------------------
  // WebSocket address

  const DEFAULT_PORT: string := ":81"

  /** `ws://` is put in front unless the address already starts with `ws://` or `wss://`. */
  function WithScheme(g: string): (r: string)
    ensures StartsWith(r, "ws://") || StartsWith(r, "wss://")
  {
    if !StartsWith(g, "ws://") && !StartsWith(g, "wss://") then "ws://" + g else g
  }

  /** The address used when the page has set none: port 81 on the page's host, or on localhost in development. */
  function FallbackUrl(hostname: string, port: string): (r: string)
    ensures hostname != "localhost" && hostname != "127.0.0.1" && port != "5500" ==>
      r == "ws://" + hostname + DEFAULT_PORT
    ensures hostname == "localhost" || hostname == "127.0.0.1" || port == "5500" ==>
      r == "ws://localhost:81"
  {
    var host := if port == "5500" || hostname == "localhost" || hostname == "127.0.0.1" then "localhost" else hostname;
    "ws://" + host + DEFAULT_PORT
  }

  /**
   * A custom address as `connectWebSocket` normalises it: trimmed, given a
   * scheme, and given `:81` unless its last `:` comes after its last `]`.
   * The scheme's own `:` takes part in that test.
   */
  function NormalizeUrl(url: string): (r: string)
    ensures r == WithScheme(Trim(url)) || r == WithScheme(Trim(url)) + DEFAULT_PORT
  {
    var g := WithScheme(Trim(url));
    var hasPort := LastIndexOf(g, ':') > LastIndexOf(g, ']');
    if hasPort then g else g + DEFAULT_PORT
  }

  /** The length of the scheme and `://` at the start of an address. */
  function SchemeLength(g: string): (n: nat)
    ensures n <= |g|
  {
    if StartsWith(g, "ws://") then 5 else if StartsWith(g, "wss://") then 6 else 0
  }

  /** The normaliser with the port test applied to the part after the scheme. */
  function NormalizeUrlCorrected(url: string): (r: string)
    ensures r == WithScheme(Trim(url)) || r == WithScheme(Trim(url)) + DEFAULT_PORT
  {
    var g := WithScheme(Trim(url));
    var authority := g[SchemeLength(g)..];
    var hasPort := LastIndexOf(authority, ':') > LastIndexOf(authority, ']');
    if hasPort then g else g + DEFAULT_PORT
  }

  /**
   * The address `connectWebSocket` opens, given the custom address (empty
   * when unset) and the page location: the fallback without a custom
   * address, otherwise the custom address normalised as written, which
   * always carries a WebSocket scheme.
   */
  function ConnectUrl(wsUrl: string, hostname: string, port: string): (r: string)
    ensures wsUrl == "" ==> r == FallbackUrl(hostname, port)
    ensures wsUrl != "" ==> r == NormalizeUrl(wsUrl)
    ensures StartsWith(r, "ws://") || StartsWith(r, "wss://")
  {
    if wsUrl == "" then FallbackUrl(hostname, port)
    else
      var g := WithScheme(Trim(wsUrl));
      assert (g + DEFAULT_PORT)[..5] == g[..5] && (|g| >= 6 ==> (g + DEFAULT_PORT)[..6] == g[..6]);
      NormalizeUrl(wsUrl)
  }

  lemma LastIndexAbsent(s: string, c: char)
    requires c !in s
    ensures LastIndexOf(s, c) == -1
  {
  }

  lemma LastIndexAtLeast(s: string, c: char, i: nat)
    requires i < |s| && s[i] == c
    ensures LastIndexOf(s, c) >= i
  {
  }

  /** A string with no white space at either end is its own trim. */
  predicate Trimmed(s: string) {
    |s| > 0 ==> !IsSpace(s[0]) && !IsSpace(s[|s| - 1])
  }

  /** A host name, or an IPv4 address, with no port and no scheme. */
  predicate BareHost(h: string) {
    |h| > 0 && Trimmed(h) && ':' !in h && '/' !in h
  }

  /** A port number as digits. */
  predicate PortDigits(p: string) {
    |p| > 0 && forall i :: 0 <= i < |p| ==> IsDigit(p[i])
  }

  /** An address without `/` cannot start with a scheme. */
  lemma NoSlashNoScheme(u: string)
    requires '/' !in u
    ensures !StartsWith(u, "ws://") && !StartsWith(u, "wss://")
  {
    PrefixMembers(u, "ws://", '/');
    PrefixMembers(u, "wss://", '/');
  }

  lemma PrefixMembers(u: string, p: string, c: char)
    ensures StartsWith(u, p) && c in p ==> c in u
  {
    if StartsWith(u, p) && c in p {
      var i :| 0 <= i < |p| && p[i] == c;
      assert u[i] == c;
    }
  }

  /** The position of a port separator: the last `:`, with no `]` after it. */
  lemma PortSeparator(u: string, k: nat)
    requires k < |u| && u[k] == ':' && ':' !in u[k + 1..] && ']' !in u[k + 1..]
    ensures LastIndexOf(u, ':') == k && LastIndexOf(u, ']') < k
  {
    LastIndexAtLeast(u, ':', k);
  }

  lemma BareHostScheme(h: string)
    requires BareHost(h)
    ensures Trim(h) == h && WithScheme(h) == "ws://" + h
  {
    TrimNoSpace(h);
    NoSlashNoScheme(h);
  }

  /** As written, an address with no `]` never receives the default port: the scheme's `:` is always found. */
  lemma NoBracketNoDefaultPort(url: string)
    requires ']' !in Trim(url)
    ensures NormalizeUrl(url) == WithScheme(Trim(url))
  {
    var g := WithScheme(Trim(url));
    if StartsWith(g, "ws://") {
      assert g[2] == ':';
      LastIndexAtLeast(g, ':', 2);
    } else {
      assert g[3] == ':';
      LastIndexAtLeast(g, ':', 3);
    }
    assert ']' !in g by {
      if g != Trim(url) {
        assert g == "ws://" + Trim(url);
      }
    }
    LastIndexAbsent(g, ']');
  }

  /** As written, a bare host is left without a port. */
  lemma BareHostAsWritten(h: string)
    requires BareHost(h) && ']' !in h
    ensures NormalizeUrl(h) == "ws://" + h
  {
    BareHostScheme(h);
    NoBracketNoDefaultPort(h);
  }

  /** The address a user is told to type, normalised as written: no port is added. */
  lemma DeviceAddressAsWritten(h: string)
    requires h == "192.168.4.1"
    ensures NormalizeUrl(h) == "ws://" + h
  {
    assert BareHost(h) && ']' !in h;
    BareHostAsWritten(h);
  }

  /** Corrected, a bare host receives port 81: the same address the fallback builds for that host. */
  lemma BareHostCorrected(h: string)
    requires BareHost(h)
    ensures NormalizeUrlCorrected(h) == "ws://" + h + DEFAULT_PORT
    ensures h != "localhost" && h != "127.0.0.1" ==> NormalizeUrlCorrected(h) == FallbackUrl(h, "")
  {
    BareHostScheme(h);
    var g := "ws://" + h;
    assert g[5..] == h;
    LastIndexAbsent(h, ':');
  }

  /** Corrected, a trimmed address without scheme or `/` is kept as given when its host part has a port. */
  lemma CorrectedWithPort(url: string, v: string)
    requires Trim(url) == v && '/' !in v && LastIndexOf(v, ':') > LastIndexOf(v, ']')
    ensures NormalizeUrlCorrected(url) == "ws://" + v
  {
    NoSlashNoScheme(v);
    var g := "ws://" + v;
    assert g[..5] == "ws://";
    assert g[5..] == v;
  }

  /** Corrected, a host with a port keeps the port. */
  lemma HostPortCorrected(h: string, p: string)
    requires BareHost(h) && PortDigits(p)
    ensures NormalizeUrlCorrected(h + ":" + p) == "ws://" + h + ":" + p
  {
    var u := h + ":" + p;
    assert Trim(u) == u by {
      assert u[0] == h[0] && u[|u| - 1] == p[|p| - 1];
      TrimNoSpace(u);
    }
    assert '/' !in u && u[|h| + 1..] == p by {
      DigitsNoSeparators(p);
      NotInConcat(h, ":", p, '/');
    }
    assert LastIndexOf(u, ':') > LastIndexOf(u, ']') by {
      DigitsNoSeparators(p);
      PortSeparator(u, |h|);
    }
    CorrectedWithPort(u, u);
    Assoc4("ws://", h, ":", p);
  }

  lemma Assoc4(a: string, b: string, c: string, d: string)
    ensures a + (b + c + d) == a + b + c + d
  {
  }

  lemma NotInConcat(a: string, b: string, c: string, x: char)
    requires x !in a && x !in b && x !in c
    ensures x !in a + b + c && (a + b + c)[|a| + |b|..] == c
  {
  }

  /** An IPv6 literal in brackets receives port 81 both as written and corrected. */
  lemma Ipv6Literal(a: string)
    requires ']' !in a && '/' !in a
    ensures NormalizeUrl("[" + a + "]") == "ws://[" + a + "]" + DEFAULT_PORT
    ensures NormalizeUrlCorrected("[" + a + "]") == "ws://[" + a + "]" + DEFAULT_PORT
  {
    var u := "[" + a + "]";
    var g := "ws://" + u;
    assert WithScheme(Trim(u)) == g by {
      BracketedTrimmed(a);
      BracketedNoSlash(a);
      NoSlashNoScheme(u);
    }
    EndsWithBracket(g);
    assert g[5..] == u;
    EndsWithBracket(u);
    SchemeBracketClose(a);
  }

  lemma BracketedTrimmed(a: string)
    ensures Trim("[" + a + "]") == "[" + a + "]"
  {
    var u := "[" + a + "]";
    assert u[0] == '[' && u[|u| - 1] == ']';
    TrimNoSpace(u);
  }

  lemma BracketedNoSlash(a: string)
    requires '/' !in a
    ensures '/' !in "[" + a + "]"
  {
    NotInConcat("[", a, "]", '/');
  }

  /** In a text that ends with `]`, the last `]` comes after the last `:`. */
  lemma EndsWithBracket(s: string)
    requires |s| > 0 && s[|s| - 1] == ']'
    ensures LastIndexOf(s, ']') == |s| - 1 && LastIndexOf(s, ':') < |s| - 1
  {
  }

  lemma SchemeBracketClose(a: string)
    ensures "ws://" + ("[" + a + "]") == "ws://[" + a + "]"
  {
  }

  /** Corrected, an IPv6 literal with a port keeps the port. */
  lemma Ipv6PortCorrected(a: string, p: string)
    requires ']' !in a && '/' !in a && PortDigits(p)
    ensures NormalizeUrlCorrected("[" + a + "]:" + p) == "ws://[" + a + "]:" + p
  {
    var v := "[" + a + "]:" + p;
    Ipv6WithPort(a, p);
    CorrectedWithPort(v, v);
    Assoc4("ws://", "[" + a, "]:", p);
    SchemeBracket(a);
  }

  /** A bracketed literal followed by `:` and digits is trimmed, has no `/`, and its last `:` follows its `]`. */
  lemma Ipv6WithPort(a: string, p: string)
    requires ']' !in a && '/' !in a && PortDigits(p)
    ensures var v := "[" + a + "]:" + p;
      Trim(v) == v && '/' !in v && LastIndexOf(v, ':') > LastIndexOf(v, ']')
  {
    Ipv6Trimmed(a, p);
    Ipv6Separator(a, p);
  }

  lemma Ipv6Trimmed(a: string, p: string)
    requires PortDigits(p)
    ensures Trim("[" + a + "]:" + p) == "[" + a + "]:" + p
  {
    var v := "[" + a + "]:" + p;
    assert v[0] == '[' && v[|v| - 1] == p[|p| - 1];
    TrimNoSpace(v);
  }

  lemma Ipv6Separator(a: string, p: string)
    requires ']' !in a && '/' !in a && PortDigits(p)
    ensures var v := "[" + a + "]:" + p;
      '/' !in v && LastIndexOf(v, ':') > LastIndexOf(v, ']')
  {
    var v := "[" + a + "]:" + p;
    DigitsNoSeparators(p);
    NotInConcat("[" + a, "]:", p, '/');
    assert v[|a| + 2] == ':';
    PortSeparator(v, |a| + 2);
  }

  lemma SchemeBracket(a: string)
    ensures "ws://" + ("[" + a) == "ws://[" + a
  {
  }

  // ---------------------------------------------------------------------------
  // Commands from the page

  const NOT_CONNECTED: string := "Erro: WebSocket não conectado. Não foi possível enviar o comando."
  const BAD_MASS: string := "Massa de calibração inválida."
  const BAD_FORMAT: string := "Formato de comando inválido"

  /** The command object sent to the host. */
  datatype WorkerCommand = Tare | GetConfig | Calibrate(massaG: JsNum) | SetParam(param: string, value: JsNum)

  /** Either the command sent, or the error message posted to the page with nothing sent. */
  datatype SendOutcome = Sent(cmd: WorkerCommand) | Rejected(message: string)

  /** `mass <= 0` is false and `isNaN(mass)` is false. */
  predicate PositiveNum(n: JsNum) {
    match n
    case Num(r) => r > 0.0
    case NaN => false
    case Infinity(negative) => !negative
  }

  /** A payload that names none of the four commands the worker knows. */
  predicate UnknownPayload(payload: string) {
    payload != "t" && payload != "get_config" &&
    !StartsWith(payload, "c:") && !StartsWith(payload, "set_param:")
  }

  /**
   * The `sendCommand` case of the worker's message handler, given whether the
   * socket is open: nothing is sent on a closed socket or an unknown payload,
   * a calibration only with a mass above 0 and a parameter only with a value
   * that is not NaN. `SendCommandCases` gives what each request carries.
   */
  function SendCommand(open: bool, payload: string): (r: SendOutcome)
    ensures !open ==> r == Rejected(NOT_CONNECTED)
    ensures open && UnknownPayload(payload) ==> r == Rejected("Comando desconhecido: " + payload)
    ensures r.Sent? ==> open
    ensures r.Sent? && r.cmd.Calibrate? ==> PositiveNum(r.cmd.massaG)
    ensures r.Sent? && r.cmd.SetParam? ==> !r.cmd.value.NaN? && ':' !in r.cmd.param
  {
    if !open then Rejected(NOT_CONNECTED)
    else if payload == "t" then Sent(Tare)
    else if payload == "get_config" then Sent(GetConfig)
    else if StartsWith(payload, "c:") then
      var mass := ParseFloat(payload[2..]);
      if !PositiveNum(mass) then Rejected(BAD_MASS) else Sent(Calibrate(mass))
    else if StartsWith(payload, "set_param:") then
      var parts := Split(payload[10..], ':');
      if |parts| == 2 then
        var param := Trim(parts[0]);
        var value := ParseFloat(parts[1]);
        TrimSlice(parts[0]);
        if value.NaN? then Rejected("Erro: Valor inválido para " + param)
        else Sent(SetParam(param, value))
      else Rejected(BAD_FORMAT)
    else Rejected("Comando desconhecido: " + payload)
  }

  /**
   * What each request carries: a calibration is `parseFloat` of the text
   * after `c:`, sent exactly when that is a number above 0; a parameter
   * request needs exactly two `:`-separated parts, sends the trimmed first as
   * the name and `parseFloat` of the second as the value, exactly when that
   * is not NaN; only these two prefixes produce these two commands.
   */
  lemma SendCommandCases(payload: string)
    ensures var r := SendCommand(true, payload);
      StartsWith(payload, "c:") ==>
        r == if PositiveNum(ParseFloat(payload[2..])) then Sent(Calibrate(ParseFloat(payload[2..]))) else Rejected(BAD_MASS)
    ensures var r := SendCommand(true, payload);
      r.Sent? && r.cmd.Calibrate? ==> StartsWith(payload, "c:")
    ensures var r := SendCommand(true, payload);
      StartsWith(payload, "set_param:") && |Split(payload[10..], ':')| != 2 ==> r == Rejected(BAD_FORMAT)
    ensures var r := SendCommand(true, payload);
      StartsWith(payload, "set_param:") && |Split(payload[10..], ':')| == 2 ==>
        var parts := Split(payload[10..], ':');
        (r.Sent? <==> !ParseFloat(parts[1]).NaN?) &&
        (r.Sent? ==> r.cmd == SetParam(Trim(parts[0]), ParseFloat(parts[1])))
    ensures var r := SendCommand(true, payload);
      r.Sent? && r.cmd.SetParam? ==> StartsWith(payload, "set_param:")
  {
    if StartsWith(payload, "c:") {
      assert payload[0] == 'c';
      assert payload != "t" && payload != "get_config";
    } else if StartsWith(payload, "set_param:") {
      assert payload[0] == 's';
      assert payload != "t" && payload != "get_config";
    }
  }

  lemma TrimSlice(s: string)
    ensures forall c :: c in Trim(s) ==> c in s
  {
    forall c | c in Trim(s)
      ensures c in s
    {
      var i :| 0 <= i < |Trim(s)| && Trim(s)[i] == c;
      assert s[LeadingSpaces(s) + i] == c;
    }
  }

  lemma DigitsNoSeparators(s: string)
    requires forall i :: 0 <= i < |s| ==> IsDigit(s[i])
    ensures ':' !in s && ']' !in s && '/' !in s
  {
  }

  /** A calibration request for a whole number of grams is sent with that mass when positive and refused when zero. */
  lemma CalibrateRoundTrip(n: nat)
    ensures SendCommand(true, "c:" + NatToString(n)) ==
      if n > 0 then Sent(Calibrate(Num(n as real))) else Rejected(BAD_MASS)
  {
    var d := NatToString(n);
    var payload := "c:" + d;
    assert payload[..2] == "c:";
    assert payload[2..] == d;
    assert payload != "t" && payload != "get_config" by {
      assert payload[0] == 'c';
    }
    ParseFloatNatToString(n);
  }

  /** A parameter request for a name without `:` and a whole number is sent with that name and number. */
  lemma SetParamRoundTrip(p: string, n: nat)
    requires ':' !in p && Trimmed(p)
    ensures SendCommand(true, "set_param:" + p + ":" + NatToString(n)) == Sent(SetParam(p, Num(n as real)))
  {
    var d := NatToString(n);
    var payload := "set_param:" + p + ":" + d;
    assert payload[..10] == "set_param:";
    assert payload[10..] == p + [':'] + d;
    assert payload != "t" && payload != "get_config" && !StartsWith(payload, "c:") by {
      assert payload[0] == 's';
    }
    DigitsNoSeparators(d);
    SplitTwo(p, d, ':');
    TrimNoSpace(p);
    ParseFloatNatToString(n);
  }

  /** A parameter request without exactly one `:` after the parameter name is refused. */
  lemma SetParamNeedsTwoParts(rest: string)
    requires ':' !in rest
    ensures SendCommand(true, "set_param:" + rest) == Rejected(BAD_FORMAT)
  {
    var payload := "set_param:" + rest;
    assert payload[..10] == "set_param:";
    assert payload[10..] == rest;
    assert payload != "t" && payload != "get_config" && !StartsWith(payload, "c:") by {
      assert payload[0] == 's';
    }
  }

  /** A parameter request with three or more `:`-separated parts is refused with the format error. */
  lemma SetParamTooManyParts(a: string, b: string, rest: string)
    requires ':' !in a && ':' !in b
    ensures SendCommand(true, "set_param:" + a + ":" + b + ":" + rest) == Rejected(BAD_FORMAT)
  {
    var payload := "set_param:" + a + ":" + b + ":" + rest;
    assert payload[..10] == "set_param:";
    assert payload[10..] == a + [':'] + (b + [':'] + rest);
    assert payload != "t" && payload != "get_config" && !StartsWith(payload, "c:") by {
      assert payload[0] == 's';
    }
    SplitFront(a, b + [':'] + rest, ':');
    SplitFront(b, rest, ':');
  }

  /** Any calibration text whose `parseFloat` is a number above 0 is sent as that mass. */
  lemma CalibrateSends(t: string)
    requires PositiveNum(ParseFloat(t))
    ensures SendCommand(true, "c:" + t) == Sent(Calibrate(ParseFloat(t)))
  {
    var payload := "c:" + t;
    assert payload[..2] == "c:" && payload[2..] == t;
    assert payload != "t" && payload != "get_config" by {
      assert payload[0] == 'c' && payload[1] == ':';
    }
  }

  /** A parameter request sends the trimmed name and `parseFloat` of the value text, unless that is NaN. */
  lemma SetParamSends(p: string, t: string)
    requires ':' !in p && ':' !in t
    ensures SendCommand(true, "set_param:" + p + ":" + t) ==
      if ParseFloat(t).NaN? then Rejected("Erro: Valor inválido para " + Trim(p)) else Sent(SetParam(Trim(p), ParseFloat(t)))
  {
    var payload := "set_param:" + p + ":" + t;
    assert payload[..10] == "set_param:";
    assert payload[10..] == p + [':'] + t;
    assert payload != "t" && payload != "get_config" && !StartsWith(payload, "c:") by {
      assert payload[0] == 's';
    }
    SplitTwo(p, t, ':');
  }

  /** `JSON.stringify` of a number, as the host's `json.loads` reads it back. */
  function JsonNumber(n: JsNum): (v: JValue)
    ensures v.JInt? ==> n == Num(v.i as real)
    ensures v.JFloat? ==> v.f.Decimal? && n == Num(v.f.value)
    ensures v.JNull? <==> !n.Num?
  {
    match n
    case Num(r) => if r.Floor as real == r then JInt(r.Floor) else JFloat(Decimal(r))
    case _ => JNull
  }

  /** The JSON object the worker sends for a command, as the host decodes it. */
  function ServerJson(c: WorkerCommand): map<string, JValue> {
    match c
    case Tare => map["cmd" := JStr("t")]
    case GetConfig => map["cmd" := JStr("get_config")]
    case Calibrate(m) => map["cmd" := JStr("c"), "massa_g" := JsonNumber(m)]
    case SetParam(p, v) => map["cmd" := JStr("set"), "param" := JStr(p), "value" := JsonNumber(v)]
  }

  /**
   * What the host does with a command the worker sends: a tare or a
   * configuration request always becomes its frame; a finite calibration
   * mass becomes a frame when it fits a binary32; an infinite one arrives as
   * JSON null and the host sends nothing.
   */
  lemma CommandReachesDevice(c: WorkerCommand, py: Codec.PyNumbers)
    requires c.Calibrate? ==> PositiveNum(c.massaG)
    ensures var r := Codec.EncodeCommand(ServerJson(c), py);
      (c == Tare ==> r == Some(Codec.EmptyCommand(Codec.CMD_TARA))) &&
      (c == GetConfig ==> r == Some(Codec.EmptyCommand(Codec.CMD_GET_CONFIG))) &&
      (c.Calibrate? && c.massaG.Infinity? ==> r.None?) &&
      (c.Calibrate? && c.massaG.Num? ==> (r.Some? <==> py.packReal(c.massaG.value).Some?))
  {
    var m := ServerJson(c);
    if c == Tare {
      Codec.LowerKeepsLower("t");
      assert Codec.CommandName(m) == Some("t");
    } else if c == GetConfig {
      Codec.LowerKeepsLower("get_config");
      assert Codec.CommandName(m) == Some("get_config");
    } else if c.Calibrate? {
      Codec.LowerKeepsLower("c");
      assert Codec.CommandName(m) == Some("c");
      Codec.CalibrateFrame(m, py);
    }
  }

  // ---------------------------------------------------------------------------
  // Readings handed to the page

  /** A reading as the worker buffers it: the `tempo` and `forca` fields as received (absent when missing). */
  datatype Point = Point(tempo: Option<JValue>, forca: Option<JValue>)

  function Field(v: JValue, key: string): Option<JValue> {
    if v.JObject? && key in v.fields then Some(v.fields[key]) else None
  }

  predicate IsDataPoint(v: JValue) {
    Field(v, "type") == Some(JStr("data"))
  }

  /** `processDataPoint`: the reading a `data` object contributes; anything else contributes none. */
  function PointOf(v: JValue): (r: seq<Point>)
    ensures |r| == if IsDataPoint(v) then 1 else 0
  {
    if IsDataPoint(v) then [Point(Field(v, "tempo"), Field(v, "forca"))] else []
  }

  /** The readings of an array message: element by element, until a `null` element throws. */
  function ListPoints(items: seq<JValue>): (r: seq<Point>)
    ensures |r| <= |items|
  {
    if |items| == 0 || items[0] == JNull then []
    else PointOf(items[0]) + ListPoints(items[1..])
  }

  /** The readings one parsed message contributes. */
  function MessagePoints(v: JValue): seq<Point> {
    if v.JList? then ListPoints(v.items) else PointOf(v)
  }

  /** Elements after a `null` element are never read. */
  lemma {:induction false} NullStopsArray(a: seq<JValue>, b: seq<JValue>)
    requires JNull !in a
    ensures ListPoints(a + [JNull] + b) == ListPoints(a)
  {
    if |a| > 0 {
      assert (a + [JNull] + b)[1..] == a[1..] + [JNull] + b;
      NullStopsArray(a[1..], b);
    } else {
      assert (a + [JNull] + b)[0] == JNull;
    }
  }

  /** A `null` at `i` ends the array's readings with those before it. */
  lemma NullEndsMessage(items: seq<JValue>, i: nat)
    requires i < |items| && items[i] == JNull && JNull !in items[..i]
    ensures ListPoints(items) == ListPoints(items[..i])
  {
    SplitAround(items, i);
    NullStopsArray(items[..i], items[i + 1..]);
  }

  lemma SplitAround(items: seq<JValue>, i: nat)
    requires i < |items|
    ensures items == items[..i] + [items[i]] + items[i + 1..]
  {
  }

  /** One more element that is not `null` adds its reading after those before it. */
  lemma ReadingStep(items: seq<JValue>, i: nat)
    requires i < |items| && items[i] != JNull && JNull !in items[..i]
    ensures JNull !in items[..i + 1] && ListPoints(items[..i + 1]) == ListPoints(items[..i]) + PointOf(items[i])
  {
    ArrayInOrder(items[..i], [items[i]]);
    assert items[..i + 1] == items[..i] + [items[i]];
    assert ListPoints([items[i]]) == PointOf(items[i]) + ListPoints([]);
  }

  /** Without `null` elements, an array contributes the readings of its parts in order. */
  lemma {:induction false} ArrayInOrder(a: seq<JValue>, b: seq<JValue>)
    requires JNull !in a
    ensures ListPoints(a + b) == ListPoints(a) + ListPoints(b)
  {
    if |a| == 0 {
      assert a + b == b;
    } else {
      assert (a + b)[0] == a[0];
      assert (a + b)[1..] == a[1..] + b;
      ArrayInOrder(a[1..], b);
    }
  }

  class DataBuffer {
    var dataBuffer: seq<Point>
    /** Every reading the worker has accepted, in arrival order. */
    ghost var received: seq<Point>
    /** Every reading posted to the page, in posting order. */
    ghost var delivered: seq<Point>

    /** No reading is lost or duplicated: what was posted, then what waits, is what arrived. */
    ghost predicate Valid()
      reads this
    {
      delivered + dataBuffer == received
    }

    constructor ()
      ensures Valid() && dataBuffer == [] && received == [] && delivered == []
    {
      dataBuffer := [];
      received := [];
      delivered := [];
    }

    /** `processDataPoint` on an element that is not `null`. */
    method ProcessDataPoint(v: JValue)
      requires Valid() && v != JNull
      modifies this
      ensures Valid()
      ensures dataBuffer == old(dataBuffer) + PointOf(v)
      ensures received == old(received) + PointOf(v) && delivered == old(delivered)
    {
      if !IsDataPoint(v) {
        return;
      }
      var p := Point(Field(v, "tempo"), Field(v, "forca"));
      dataBuffer := dataBuffer + [p];
      received := received + [p];
    }

    /** `processWebSocketMessage` on one parsed message. */
    method ProcessMessage(v: JValue)
      requires Valid()
      modifies this
      ensures Valid()
      ensures dataBuffer == old(dataBuffer) + MessagePoints(v)
      ensures received == old(received) + MessagePoints(v) && delivered == old(delivered)
    {
      if v.JList? {
        var i := 0;
        while i < |v.items|
          invariant 0 <= i <= |v.items|
          invariant Valid() && delivered == old(delivered)
          invariant JNull !in v.items[..i]
          invariant dataBuffer == old(dataBuffer) + ListPoints(v.items[..i])
          invariant received == old(received) + ListPoints(v.items[..i])
          decreases |v.items| - i
        {
          if v.items[i] == JNull {
            // `reading.type` on null throws, which ends the whole message
            NullEndsMessage(v.items, i);
            return;
          }
          ReadingStep(v.items, i);
          ProcessDataPoint(v.items[i]);
          i := i + 1;
        }
        assert v.items[..i] == v.items;
      } else if v != JNull && IsDataPoint(v) {
        ProcessDataPoint(v);
      }
    }

    /** `solicitarDados`: posts the whole buffer and empties it, or posts nothing when it is empty. */
    method RequestData() returns (posted: Option<seq<Point>>)
      requires Valid()
      modifies this
      ensures Valid() && received == old(received)
      ensures old(dataBuffer) == [] ==> posted == None && dataBuffer == [] && delivered == old(delivered)
      ensures old(dataBuffer) != [] ==>
        posted == Some(old(dataBuffer)) && dataBuffer == [] && delivered == old(delivered) + old(dataBuffer)
    {
      if |dataBuffer| > 0 {
        posted := Some(dataBuffer);
        delivered := delivered + dataBuffer;
        dataBuffer := [];
      } else {
        posted := None;
      }
    }
  }
}
