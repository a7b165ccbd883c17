/**
 * The dashboard's own state: the chart's point buffer with its sliding
 * window, the chart mode buttons, the display-unit cycle, the guided
 * configuration's step counter and the messages it posts to the worker.
 */
module Dashboard {
  import opened Wrappers
  import opened JsText
  import opened JsNumber
  import opened Json
  import DataWorker

  // ---------------------------------------------------------------------------
  // Guided configuration

  const WIZARD_TOTAL_STEPS: nat := 5

  class Wizard {
    var wizardCurrentStep: int
    /** The steps whose form state `saveStepState` copied into `wizardState`, in order. */
    ghost var savedSteps: seq<int>

    ghost predicate Valid()
      reads this
    {
      0 <= wizardCurrentStep <= WIZARD_TOTAL_STEPS
    }

    constructor ()
      ensures Valid() && wizardCurrentStep == 0 && savedSteps == []
    {
      wizardCurrentStep := 0;
      savedSteps := [];
    }

    /** `openWizard`: back to the first step with an empty state. */
    method Open()
      modifies this
      ensures Valid() && wizardCurrentStep == 0 && savedSteps == []
    {
      wizardCurrentStep := 0;
      savedSteps := [];
    }

    /**
     * `wizardGoToStep`, given whether `validateStep` accepts the current
     * step: moving forward needs the current step valid and saves it first;
     * a move that would leave steps 0 to 5 stays put.
     */
    method GoToStep(direction: int, stepValid: bool)
      requires Valid()
      modifies this
      ensures Valid()
      ensures direction > 0 && !stepValid ==> wizardCurrentStep == old(wizardCurrentStep) && savedSteps == old(savedSteps)
      ensures direction > 0 && stepValid ==> savedSteps == old(savedSteps) + [old(wizardCurrentStep)]
      ensures direction <= 0 ==> savedSteps == old(savedSteps)
      ensures !(direction > 0 && !stepValid) ==>
        wizardCurrentStep == (if 0 <= old(wizardCurrentStep) + direction <= WIZARD_TOTAL_STEPS
                              then old(wizardCurrentStep) + direction else old(wizardCurrentStep))
    {
      var newStep := wizardCurrentStep + direction;
      if direction > 0 {
        if !stepValid {
          return;
        }
        savedSteps := savedSteps + [wizardCurrentStep];
      }
      if newStep >= 0 && newStep <= WIZARD_TOTAL_STEPS {
        wizardCurrentStep := newStep;
      }
    }
  }

  // ---------------------------------------------------------------------------
  // Display unit

  const UNITS: seq<string> := ["kgf", "N", "gf"]

  /** `units.indexOf(u)`: -1 when absent. */
  function UnitIndex(u: string): (i: int)
    ensures -1 <= i < |UNITS|
    ensures i >= 0 ==> UNITS[i] == u
    ensures i == -1 <==> u !in UNITS
  {
    if u == "kgf" then 0 else if u == "N" then 1 else if u == "gf" then 2 else -1
  }

  /** The unit a click on the readings switches to. */
  function NextUnit(u: string): (r: string)
    ensures r in UNITS
  {
    UNITS[(UnitIndex(u) + 1) % |UNITS|]
  }

  /** Each click moves one place along kgf, N, gf and back to kgf; an unknown unit goes to kgf. */
  lemma UnitCycle(u: string)
    ensures u in UNITS ==> NextUnit(NextUnit(NextUnit(u))) == u && NextUnit(u) != u
    ensures u !in UNITS ==> NextUnit(u) == "kgf"
  {
    assert NextUnit("kgf") == "N" && NextUnit("N") == "gf" && NextUnit("gf") == "kgf";
  }

  // ---------------------------------------------------------------------------
  // Chart

  datatype ChartMode = Sliding | Accumulated | Paused

  datatype Point = Point(tempo: real, forca: real)

  /** The max-points box shows the point count, not the limit, in accumulated mode and when paused from it. */
  predicate ShowsCount(mode: ChartMode, wasAccumulating: bool) {
    mode == Accumulated || (mode == Paused && wasAccumulating)
  }

  /** Moving the first `cut` points of the buffer to the dropped ones loses no point. */
  lemma CutKeepsHistory(dropped: seq<Point>, r: seq<Point>, cut: nat)
    requires cut <= |r|
    ensures (dropped + r[..cut]) + r[cut..] == dropped + r
  {
    assert r == r[..cut] + r[cut..];
  }

  class Chart {
    /** The plotted points, force in newtons. */
    var rawDataN: seq<Point>
    var maxDataPoints: nat
    var chartMode: ChartMode
    var wasAccumulating: bool
    var isChartPaused: bool
    var displayUnit: string
    /** The text in the max-points box. */
    var maxPointsText: string
    /** The points pushed out of the front of the buffer since the chart was last cleared. */
    ghost var dropped: seq<Point>

    /** Every point appended since the chart was last cleared: the buffer holds the latest of them. */
    ghost function History(): seq<Point>
      reads this
    {
      dropped + rawDataN
    }

    ghost predicate BufferValid()
      reads this
    {
      maxDataPoints > 0
    }

    ghost predicate Valid()
      reads this
    {
      BufferValid() && isChartPaused == (chartMode == Paused)
    }

    constructor ()
      ensures Valid()
      ensures rawDataN == [] && maxDataPoints == 100 && chartMode == Sliding && !wasAccumulating
      ensures displayUnit == "kgf" && maxPointsText == NatToString(100)
    {
      rawDataN := [];
      maxDataPoints := 100;
      chartMode := Sliding;
      wasAccumulating := false;
      isChartPaused := false;
      displayUnit := "kgf";
      maxPointsText := NatToString(100);
      dropped := [];
    }

    /**
     * `updateAccumulatedPointsDisplay`: where the box shows the count, it
     * is set to the number of points; elsewhere it keeps its text.
     */
    method ShowPointCount()
      requires Valid()
      modifies this
      ensures Valid()
      ensures maxPointsText == (if ShowsCount(chartMode, wasAccumulating) then NatToString(|rawDataN|) else old(maxPointsText))
      ensures rawDataN == old(rawDataN) && dropped == old(dropped) && maxDataPoints == old(maxDataPoints)
      ensures chartMode == old(chartMode) && isChartPaused == old(isChartPaused) && wasAccumulating == old(wasAccumulating)
      ensures displayUnit == old(displayUnit)
    {
      if ShowsCount(chartMode, wasAccumulating) {
        maxPointsText := NatToString(|rawDataN|);
      }
    }

    /** `clearChart`: the buffer and its history are emptied and a box showing the count reads 0. */
    method Clear()
      requires Valid()
      modifies this
      ensures Valid() && rawDataN == [] && History() == []
      ensures maxPointsText == (if ShowsCount(chartMode, wasAccumulating) then NatToString(0) else old(maxPointsText))
      ensures maxDataPoints == old(maxDataPoints) && chartMode == old(chartMode) && isChartPaused == old(isChartPaused)
      ensures wasAccumulating == old(wasAccumulating) && displayUnit == old(displayUnit)
    {
      rawDataN := [];
      dropped := [];
      ShowPointCount();
    }

    /**
     * The buffering step of `updateUIFromData`, with the force already
     * filtered: nothing while paused; otherwise the point is appended and,
     * in sliding mode, the oldest point dropped once the limit is passed.
     */
    method Update(tempo: real, forcaFiltrada: real)
      requires Valid()
      modifies this
      ensures Valid()
      ensures old(isChartPaused) ==> rawDataN == old(rawDataN)
      ensures !old(isChartPaused) ==> |rawDataN| > 0 && rawDataN[|rawDataN| - 1] == Point(tempo, forcaFiltrada)
      ensures !old(isChartPaused) && chartMode == Sliding && |old(rawDataN)| >= maxDataPoints ==>
                rawDataN == (old(rawDataN) + [Point(tempo, forcaFiltrada)])[1..]
      ensures !old(isChartPaused) && (chartMode != Sliding || |old(rawDataN)| < maxDataPoints) ==>
                rawDataN == old(rawDataN) + [Point(tempo, forcaFiltrada)]
      ensures chartMode == Sliding && |old(rawDataN)| <= maxDataPoints ==> |rawDataN| <= maxDataPoints
      ensures chartMode == Accumulated ==> rawDataN == old(rawDataN) + [Point(tempo, forcaFiltrada)]
      ensures maxDataPoints == old(maxDataPoints) && chartMode == old(chartMode) && isChartPaused == old(isChartPaused)
      ensures wasAccumulating == old(wasAccumulating) && maxPointsText == old(maxPointsText)
      ensures History() == old(History()) + (if old(isChartPaused) then [] else [Point(tempo, forcaFiltrada)])
    {
      if isChartPaused {
        return;
      }
      var p := Point(tempo, forcaFiltrada);
      rawDataN := rawDataN + [p];
      if chartMode == Sliding && |rawDataN| > maxDataPoints {
        assert rawDataN == [rawDataN[0]] + rawDataN[1..];
        dropped := dropped + [rawDataN[0]];
        rawDataN := rawDataN[1..];
      }
    }

    /**
     * The max-points box's change handler: a text that `parseInt` reads as
     * a positive integer becomes the limit and the buffer keeps its last
     * that many points; any other text is replaced by the limit.
     */
    method SetMaxPoints(text: string) returns (accepted: bool)
      requires Valid()
      modifies this
      ensures Valid()
      ensures accepted <==> ParseInt(text).Some? && ParseInt(text).value > 0
      ensures accepted ==> maxDataPoints == ParseInt(text).value && maxPointsText == text &&
                           |rawDataN| == (if |old(rawDataN)| > maxDataPoints then maxDataPoints else |old(rawDataN)|) &&
                           rawDataN == old(rawDataN)[|old(rawDataN)| - |rawDataN|..]
      ensures !accepted ==> maxDataPoints == old(maxDataPoints) && rawDataN == old(rawDataN) &&
                            maxPointsText == NatToString(maxDataPoints)
      ensures chartMode == old(chartMode) && isChartPaused == old(isChartPaused) && wasAccumulating == old(wasAccumulating)
      ensures History() == old(History())
    {
      var newValue := ParseInt(text);
      if newValue.Some? && newValue.value > 0 {
        var m := newValue.value;
        var cut := if |rawDataN| > m then |rawDataN| - m else 0;
        CutKeepsHistory(dropped, rawDataN, cut);
        maxDataPoints := m;
        maxPointsText := text;
        dropped := dropped + rawDataN[..cut];
        rawDataN := rawDataN[cut..];
        accepted := true;
      } else {
        maxPointsText := NatToString(maxDataPoints);
        accepted := false;
      }
    }

    /** A click on the readings: the next unit of the cycle. */
    method ClickUnit()
      requires Valid()
      modifies this
      ensures Valid()
      ensures displayUnit == NextUnit(old(displayUnit))
      ensures rawDataN == old(rawDataN) && dropped == old(dropped) && chartMode == old(chartMode) && maxDataPoints == old(maxDataPoints)
      ensures isChartPaused == old(isChartPaused) && wasAccumulating == old(wasAccumulating) && maxPointsText == old(maxPointsText)
    {
      displayUnit := NextUnit(displayUnit);
    }

    /**
     * `setChartMode`: the pause flag follows the mode; leaving accumulated
     * mode remembers it, switching to sliding mode forgets it; the
     * max-points box shows the count or the limit accordingly.
     */
    method SetChartMode(mode: ChartMode)
      requires BufferValid()
      modifies this
      ensures Valid() && chartMode == mode && (isChartPaused <==> mode == Paused)
      ensures wasAccumulating == (if old(chartMode) == Accumulated then true
                                  else if mode == Sliding then false else old(wasAccumulating))
      ensures maxPointsText == NatToString(if ShowsCount(mode, wasAccumulating) then |rawDataN| else maxDataPoints)
      ensures rawDataN == old(rawDataN) && maxDataPoints == old(maxDataPoints) && displayUnit == old(displayUnit)
      ensures dropped == old(dropped)
    {
      if chartMode == Accumulated {
        wasAccumulating := true;
      } else if mode == Sliding {
        wasAccumulating := false;
      }
      chartMode := mode;
      isChartPaused := mode == Paused;
      if ShowsCount(mode, wasAccumulating) {
        maxPointsText := NatToString(|rawDataN|);
      } else {
        maxPointsText := NatToString(maxDataPoints);
      }
    }

    /**
     * `toggleChartPause`: with no argument it toggles between paused and
     * sliding; any argument first clears the pause flag, so it always pauses.
     */
    method TogglePause(setPaused: Option<bool>)
      requires Valid()
      modifies this
      ensures Valid()
      ensures setPaused.Some? ==> chartMode == Paused && isChartPaused
      ensures setPaused.None? ==> chartMode == (if old(isChartPaused) then Sliding else Paused)
      ensures setPaused.None? ==> isChartPaused == !old(isChartPaused)
      ensures wasAccumulating == (if old(chartMode) == Accumulated then true
                                  else if chartMode == Sliding then false else old(wasAccumulating))
      ensures maxPointsText == NatToString(if ShowsCount(chartMode, wasAccumulating) then |rawDataN| else maxDataPoints)
      ensures rawDataN == old(rawDataN) && dropped == old(dropped) && maxDataPoints == old(maxDataPoints)
      ensures displayUnit == old(displayUnit)
    {
      if setPaused.Some? {
        isChartPaused := false;
      }
      if isChartPaused {
        SetChartMode(Sliding);
      } else {
        SetChartMode(Paused);
      }
    }
  }

  /** Pausing from accumulated mode keeps showing the point count, and returning to sliding mode shows the limit. */
  lemma PauseKeepsCount(wasMode: ChartMode, was: bool)
    ensures var was' := if wasMode == Accumulated then true else was;
      wasMode == Accumulated ==> ShowsCount(Paused, was')
    ensures !ShowsCount(Sliding, false)
  {
  }

  // ---------------------------------------------------------------------------
  // Commands to the worker

  /** The payload `sendCommandToWorker` builds. */
  function CommandPayload(command: string, value: Option<JValue>): (p: map<string, JValue>)
    ensures "cmd" in p && p["cmd"] == JStr(command)
    ensures value.None? ==> p.Keys == {"cmd"}
    ensures value.Some? && command == "save_session_to_mysql" ==>
      p.Keys == {"cmd", "sessionData"} && p["sessionData"] == value.value
    ensures value.Some? && command != "save_session_to_mysql" ==>
      p.Keys == {"cmd", "value"} && p["value"] == value.value
  {
    var messagePayload := map["cmd" := JStr(command)];
    match value
    case None => messagePayload
    case Some(v) =>
      if command == "save_session_to_mysql" then messagePayload["sessionData" := v]
      else messagePayload["value" := v]
  }

  /** `sendCommandToWorker`: the message posted, or none without a worker. */
  function PostedMessage(hasWorker: bool, command: string, value: Option<JValue>): (m: Option<JValue>)
    ensures m.Some? <==> hasWorker
    ensures m.Some? ==> m.value == JObject(map["type" := JStr("sendCommand"), "payload" := JObject(CommandPayload(command, value))])
  {
    if !hasWorker then None
    else Some(JObject(map["type" := JStr("sendCommand"), "payload" := JObject(CommandPayload(command, value))]))
  }

  /** What the worker's `sendCommand` case does with a payload: it runs on strings and throws on anything else. */
  datatype Receipt = Handled(outcome: DataWorker.SendOutcome) | Threw

  /**
   * The worker's `sendCommand` case on any payload: a closed socket refuses;
   * a string goes through the command parser; for any other value the
   * comparison with `'t'` fails and `payload.startsWith` is not a function.
   */
  function WorkerReceives(open: bool, payload: JValue): (r: Receipt)
    ensures !open ==> r == Handled(DataWorker.Rejected(DataWorker.NOT_CONNECTED))
    ensures open && !payload.JStr? ==> r == Threw
  {
    if !open then Handled(DataWorker.Rejected(DataWorker.NOT_CONNECTED))
    else match payload
      case JStr(s) => Handled(DataWorker.SendCommand(true, s))
      case _ => Threw
  }

  /** The commands the dashboard sends the device: tare, configuration request, calibration, parameter. */
  datatype DeviceCommand = Tare | GetConfig | Calibrate(massaG: nat) | SetParam(param: string, value: nat)

  /** As written: the dashboard's arguments to `sendCommandToWorker` for each command. */
  function AsWrittenMessage(c: DeviceCommand): JValue {
    match c
    case Tare => JObject(CommandPayload("t", None))
    case GetConfig => JObject(CommandPayload("get_config", None))
    case Calibrate(m) => JObject(CommandPayload("c", Some(JInt(m))))
    case SetParam(p, v) => JObject(CommandPayload("set", Some(JObject(map["param" := JStr(p), "value" := JInt(v)]))))
  }

  /** As written, every command from the dashboard makes the worker's handler throw, so none reaches the device. */
  lemma DashboardCommandsThrow(c: DeviceCommand)
    ensures WorkerReceives(true, AsWrittenMessage(c)) == Threw
  {
  }

  /** Corrected: the payload is the text the worker parses. */
  function DevicePayload(c: DeviceCommand): string {
    match c
    case Tare => "t"
    case GetConfig => "get_config"
    case Calibrate(m) => "c:" + NatToString(m)
    case SetParam(p, v) => "set_param:" + p + ":" + NatToString(v)
  }

  /**
   * Corrected, each command arrives as the worker command it names: a
   * positive calibration mass and a parameter name without `:` or outer
   * white space as given; a zero mass is refused with the worker's message.
   */
  lemma CorrectedCommandsArrive(c: DeviceCommand)
    requires c.SetParam? ==> ':' !in c.param && DataWorker.Trimmed(c.param)
    ensures var r := WorkerReceives(true, JStr(DevicePayload(c)));
      (c == Tare ==> r == Handled(DataWorker.Sent(DataWorker.Tare))) &&
      (c == GetConfig ==> r == Handled(DataWorker.Sent(DataWorker.GetConfig))) &&
      (c.Calibrate? && c.massaG > 0 ==> r == Handled(DataWorker.Sent(DataWorker.Calibrate(Num(c.massaG as real))))) &&
      (c.Calibrate? && c.massaG == 0 ==> r == Handled(DataWorker.Rejected(DataWorker.BAD_MASS))) &&
      (c.SetParam? ==> r == Handled(DataWorker.Sent(DataWorker.SetParam(c.param, Num(c.value as real)))))
  {
    match c
    case Tare => TareArrives();
    case GetConfig => GetConfigArrives();
    case Calibrate(m) => CalibrateArrives(m);
    case SetParam(p, v) => SetParamArrives(p, v);
  }

  lemma TareArrives()
    ensures WorkerReceives(true, JStr(DevicePayload(Tare))) == Handled(DataWorker.Sent(DataWorker.Tare))
  {
    assert DevicePayload(Tare) == "t";
  }

  lemma GetConfigArrives()
    ensures WorkerReceives(true, JStr(DevicePayload(GetConfig))) == Handled(DataWorker.Sent(DataWorker.GetConfig))
  {
    assert DevicePayload(GetConfig) == "get_config";
  }

  lemma CalibrateArrives(m: nat)
    ensures WorkerReceives(true, JStr(DevicePayload(Calibrate(m)))) ==
      Handled(if m > 0 then DataWorker.Sent(DataWorker.Calibrate(Num(m as real))) else DataWorker.Rejected(DataWorker.BAD_MASS))
  {
    assert DevicePayload(Calibrate(m)) == "c:" + NatToString(m);
    DataWorker.CalibrateRoundTrip(m);
  }

  lemma SetParamArrives(p: string, v: nat)
    requires ':' !in p && DataWorker.Trimmed(p)
    ensures WorkerReceives(true, JStr(DevicePayload(SetParam(p, v)))) == Handled(DataWorker.Sent(DataWorker.SetParam(p, Num(v as real))))
  {
    assert DevicePayload(SetParam(p, v)) == "set_param:" + p + ":" + NatToString(v);
    DataWorker.SetParamRoundTrip(p, v);
  }
}
