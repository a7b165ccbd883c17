/**
 * Burn-window selection for a recorded thrust curve: the start and end of
 * the burn are the first and last samples above 5% of the peak force (or
 * the user's saved points), the window's samples are filtered out of the
 * parallel time and force arrays, and the analysis modal lets the user move
 * either endpoint by clicking the chart or typing a time.
 */
module BurnAnalysis {
  import opened Wrappers
  import opened JsNumber

  /** A processed recording: parallel arrays of times (s), forces (N) and, where present, kgf values. */
  datatype Samples = Samples(tempos: seq<real>, newtons: seq<real>, kgf: seq<Option<real>>)

  predicate Wf(d: Samples) {
    |d.newtons| == |d.tempos| && |d.kgf| == |d.tempos|
  }

  // ---------------------------------------------------------------------------
  // Peak and threshold

  function SeqMax(xs: seq<real>): (m: real)
    requires |xs| > 0
    ensures m in xs && forall i :: 0 <= i < |xs| ==> xs[i] <= m
  {
    if |xs| == 1 then xs[0]
    else var m := SeqMax(xs[1..]); if xs[0] >= m then xs[0] else m
  }

  function SeqMin(xs: seq<real>): (m: real)
    requires |xs| > 0
    ensures m in xs && forall i :: 0 <= i < |xs| ==> m <= xs[i]
  {
    if |xs| == 1 then xs[0]
    else var m := SeqMin(xs[1..]); if xs[0] <= m then xs[0] else m
  }

  /** 5% of the peak force. */
  function Threshold(ns: seq<real>): real
    requires |ns| > 0
  {
    SeqMax(ns) * 0.05
  }

  /** The first index from `i` on whose force exceeds `thr`. */
  function FirstAbove(ns: seq<real>, thr: real, i: nat): (r: Option<nat>)
    requires i <= |ns|
    ensures r.Some? ==> (i <= r.value < |ns| && ns[r.value] > thr &&
      forall j :: i <= j < r.value ==> ns[j] <= thr)
    ensures r.None? ==> forall j :: i <= j < |ns| ==> ns[j] <= thr
    decreases |ns| - i
  {
    if i == |ns| then None
    else if ns[i] > thr then Some(i)
    else FirstAbove(ns, thr, i + 1)
  }

  /** The last index below `n` whose force exceeds `thr`. */
  function LastAbove(ns: seq<real>, thr: real, n: nat): (r: Option<nat>)
    requires n <= |ns|
    ensures r.Some? ==> (r.value < n && ns[r.value] > thr &&
      forall j :: r.value < j < n ==> ns[j] <= thr)
    ensures r.None? ==> forall j :: 0 <= j < n ==> ns[j] <= thr
  {
    if n == 0 then None
    else if ns[n - 1] > thr then Some(n - 1)
    else LastAbove(ns, thr, n - 1)
  }

  /** `detectBurnStart`: the time of the first sample above the threshold, else the first time; undefined when empty. */
  function BurnStart(d: Samples): (r: Option<real>)
    requires Wf(d)
    ensures r.None? <==> |d.tempos| == 0
    ensures r.Some? ==> r.value in d.tempos
  {
    if |d.tempos| == 0 then None
    else match FirstAbove(d.newtons, Threshold(d.newtons), 0)
      case Some(i) => Some(d.tempos[i])
      case None => Some(d.tempos[0])
  }

  /** `detectBurnEnd`: the time of the last sample above the threshold, else the last time; undefined when empty. */
  function BurnEnd(d: Samples): (r: Option<real>)
    requires Wf(d)
    ensures r.None? <==> |d.tempos| == 0
    ensures r.Some? ==> r.value in d.tempos
  {
    if |d.tempos| == 0 then None
    else match LastAbove(d.newtons, Threshold(d.newtons), |d.newtons|)
      case Some(i) => Some(d.tempos[i])
      case None => Some(d.tempos[|d.tempos| - 1])
  }

  /**
   * The start is the time of the first sample above 5% of the peak, or the
   * first time when no sample is above it.
   */
  lemma BurnStartIsFirstAbove(d: Samples, i: nat)
    requires Wf(d) && i < |d.tempos|
    ensures d.newtons[i] > Threshold(d.newtons) && (forall j :: 0 <= j < i ==> d.newtons[j] <= Threshold(d.newtons)) ==>
      BurnStart(d) == Some(d.tempos[i])
    ensures (forall j :: 0 <= j < |d.newtons| ==> d.newtons[j] <= Threshold(d.newtons)) ==>
      BurnStart(d) == Some(d.tempos[0])
  {
    var f := FirstAbove(d.newtons, Threshold(d.newtons), 0);
    if d.newtons[i] > Threshold(d.newtons) && (forall j :: 0 <= j < i ==> d.newtons[j] <= Threshold(d.newtons)) {
      assert f.Some? && f.value == i;
    }
  }

  /**
   * The end is the time of the last sample above 5% of the peak, or the
   * last time when no sample is above it.
   */
  lemma BurnEndIsLastAbove(d: Samples, i: nat)
    requires Wf(d) && i < |d.tempos|
    ensures d.newtons[i] > Threshold(d.newtons) && (forall j :: i < j < |d.newtons| ==> d.newtons[j] <= Threshold(d.newtons)) ==>
      BurnEnd(d) == Some(d.tempos[i])
    ensures (forall j :: 0 <= j < |d.newtons| ==> d.newtons[j] <= Threshold(d.newtons)) ==>
      BurnEnd(d) == Some(d.tempos[|d.tempos| - 1])
  {
    var l := LastAbove(d.newtons, Threshold(d.newtons), |d.newtons|);
    if d.newtons[i] > Threshold(d.newtons) && (forall j :: i < j < |d.newtons| ==> d.newtons[j] <= Threshold(d.newtons)) {
      assert l.Some? && l.value == i;
    }
  }

  method DetectBurnStart(d: Samples) returns (t: Option<real>)
    requires Wf(d)
    ensures t == BurnStart(d)
  {
    if |d.newtons| == 0 {
      return None;
    }
    var threshold := SeqMax(d.newtons) * 0.05;
    var i := 0;
    while i < |d.newtons|
      invariant 0 <= i <= |d.newtons|
      invariant FirstAbove(d.newtons, threshold, 0) == FirstAbove(d.newtons, threshold, i)
      decreases |d.newtons| - i
    {
      if d.newtons[i] > threshold {
        return Some(d.tempos[i]);
      }
      i := i + 1;
    }
    return Some(d.tempos[0]);
  }

  method DetectBurnEnd(d: Samples) returns (t: Option<real>)
    requires Wf(d)
    ensures t == BurnEnd(d)
  {
    if |d.newtons| == 0 {
      return None;
    }
    var threshold := SeqMax(d.newtons) * 0.05;
    var i := |d.newtons| - 1;
    while i >= 0
      invariant -1 <= i < |d.newtons|
      invariant LastAbove(d.newtons, threshold, |d.newtons|) == LastAbove(d.newtons, threshold, i + 1)
      decreases i
    {
      if d.newtons[i] > threshold {
        return Some(d.tempos[i]);
      }
      i := i - 1;
    }
    return Some(d.tempos[|d.tempos| - 1]);
  }

  /** With a positive peak the peak sample itself is above 5% of it, so neither search falls back. */
  lemma PositivePeakIsFound(d: Samples)
    requires Wf(d) && |d.newtons| > 0 && SeqMax(d.newtons) > 0.0
    ensures FirstAbove(d.newtons, Threshold(d.newtons), 0).Some?
    ensures LastAbove(d.newtons, Threshold(d.newtons), |d.newtons|).Some?
    ensures FirstAbove(d.newtons, Threshold(d.newtons), 0).value <= LastAbove(d.newtons, Threshold(d.newtons), |d.newtons|).value
  {
    var ns := d.newtons;
    var thr := Threshold(ns);
    var k :| 0 <= k < |ns| && ns[k] == SeqMax(ns);
    assert ns[k] > thr;
  }

  /** On a recording in time order with a positive peak, the detected start is not after the detected end. */
  lemma DetectedWindowOrdered(d: Samples)
    requires Wf(d) && |d.newtons| > 0 && SeqMax(d.newtons) > 0.0
    requires forall i, j :: 0 <= i <= j < |d.tempos| ==> d.tempos[i] <= d.tempos[j]
    ensures BurnStart(d).Some? && BurnEnd(d).Some? && BurnStart(d).value <= BurnEnd(d).value
  {
    PositivePeakIsFound(d);
  }

  // ---------------------------------------------------------------------------
  // Filtering the window

  /** The elements of `xs` whose mask entry is set, in order. */
  function Pick<T>(xs: seq<T>, mask: seq<bool>): (r: seq<T>)
    requires |mask| == |xs|
    ensures |r| == |Indices(mask)|
  {
    if |xs| == 0 then []
    else Pick(xs[..|xs| - 1], mask[..|mask| - 1]) + (if mask[|mask| - 1] then [xs[|xs| - 1]] else [])
  }

  /** The indices whose mask entry is set, in increasing order. */
  function Indices(mask: seq<bool>): (r: seq<nat>)
    ensures forall k :: 0 <= k < |r| ==> r[k] < |mask| && mask[r[k]]
    ensures forall k, l :: 0 <= k < l < |r| ==> r[k] < r[l]
  {
    if |mask| == 0 then []
    else Indices(mask[..|mask| - 1]) + (if mask[|mask| - 1] then [|mask| - 1] else [])
  }

  /** Every set index is picked. */
  lemma {:induction false} IndicesComplete(mask: seq<bool>, i: nat)
    requires i < |mask| && mask[i]
    ensures i in Indices(mask)
  {
    if i < |mask| - 1 {
      assert mask[..|mask| - 1][i] == mask[i];
      IndicesComplete(mask[..|mask| - 1], i);
    }
  }

  /** The k-th picked element is the element at the k-th set index: picks from parallel arrays stay paired. */
  lemma {:induction false} PickAt<T>(xs: seq<T>, mask: seq<bool>, k: nat)
    requires |mask| == |xs| && k < |Indices(mask)|
    ensures Pick(xs, mask)[k] == xs[Indices(mask)[k]]
  {
    var n := |xs|;
    var m' := mask[..n - 1];
    var x' := xs[..n - 1];
    if k < |Indices(m')| {
      PickAt(x', m', k);
      assert Indices(mask)[k] == Indices(m')[k];
      assert x'[Indices(m')[k]] == xs[Indices(m')[k]];
    }
  }

  /** Pick keeps everything when every entry is set. */
  lemma {:induction false} PickAll<T>(xs: seq<T>, mask: seq<bool>)
    requires |mask| == |xs| && forall i :: 0 <= i < |mask| ==> mask[i]
    ensures Pick(xs, mask) == xs
  {
    if |xs| > 0 {
      PickAll(xs[..|xs| - 1], mask[..|mask| - 1]);
      assert xs[..|xs| - 1] + [xs[|xs| - 1]] == xs;
    }
  }

  /** `startTime <= t && t <= endTime`, false when either end is undefined. */
  predicate InWindow(t: real, s: Option<real>, e: Option<real>) {
    s.Some? && e.Some? && s.value <= t <= e.value
  }

  function WindowMask(ts: seq<real>, s: Option<real>, e: Option<real>): (m: seq<bool>)
    ensures |m| == |ts| && forall i :: 0 <= i < |ts| ==> m[i] == InWindow(ts[i], s, e)
  {
    seq(|ts|, i requires 0 <= i < |ts| => InWindow(ts[i], s, e))
  }

  /** The kgf value is pushed only where the sample is in the window and has one. */
  function KgfMask(d: Samples, s: Option<real>, e: Option<real>): (m: seq<bool>)
    requires Wf(d)
    ensures |m| == |d.kgf| && forall i :: 0 <= i < |m| ==> m[i] == (InWindow(d.tempos[i], s, e) && d.kgf[i].Some?)
  {
    seq(|d.kgf|, i requires 0 <= i < |d.kgf| => InWindow(d.tempos[i], s, e) && d.kgf[i].Some?)
  }

  function KgfValues(d: Samples): (r: seq<real>)
    ensures |r| == |d.kgf|
  {
    seq(|d.kgf|, i requires 0 <= i < |d.kgf| => d.kgf[i].GetOr(0.0))
  }

  /** `Math.max(...t) - Math.min(...t)`, or 0 for no samples. */
  function Span(ts: seq<real>): (r: real)
    ensures r >= 0.0
  {
    if |ts| == 0 then 0.0 else SeqMax(ts) - SeqMin(ts)
  }

  /** A saved point unless it is null or undefined (`=== null || === undefined`). */
  function SavedOr(saved: Option<real>, detected: Option<real>): Option<real> {
    if saved.Some? then saved else detected
  }

  /** The arguments of `aplicarPontosDeQueima`: `dadosTabela` (None when missing) and the saved points (None when null or undefined). */
  datatype Session = Session(dadosTabela: Option<Samples>, savedStart: Option<real>, savedEnd: Option<real>)

  datatype Filtered = Filtered(tempos: seq<real>, newtons: seq<real>, kgf: seq<real>, duracao: real, pontos: nat)

  datatype BurnResult = BurnResult(
    filtered: Filtered, original: Samples,
    startTime: Option<real>, endTime: Option<real>, duration: Option<real>,
    custom: bool)

  /** `aplicarPontosDeQueima`: the samples of the burn window, with the window used. */
  method ApplyBurnPoints(session: Option<Session>) returns (r: Option<BurnResult>)
    requires session.Some? && session.value.dadosTabela.Some? ==> Wf(session.value.dadosTabela.value)
    ensures r.None? <==> session.None? || session.value.dadosTabela.None?
    ensures r.Some? ==>
      var d := session.value.dadosTabela.value;
      var s := SavedOr(session.value.savedStart, BurnStart(d));
      var e := SavedOr(session.value.savedEnd, BurnEnd(d));
      var mask := WindowMask(d.tempos, s, e);
      r.value.original == d && r.value.startTime == s && r.value.endTime == e &&
      r.value.custom == session.value.savedStart.Some? &&
      r.value.duration == (if s.Some? && e.Some? then Some(e.value - s.value) else None) &&
      r.value.filtered.tempos == Pick(d.tempos, mask) &&
      r.value.filtered.newtons == Pick(d.newtons, mask) &&
      r.value.filtered.kgf == Pick(KgfValues(d), KgfMask(d, s, e)) &&
      r.value.filtered.pontos == |r.value.filtered.tempos| &&
      r.value.filtered.duracao == Span(r.value.filtered.tempos)
  {
    if session.None? || session.value.dadosTabela.None? {
      return None;
    }
    var dados := session.value.dadosTabela.value;
    var startTime := session.value.savedStart;
    var endTime := session.value.savedEnd;
    if startTime.None? {
      startTime := DetectBurnStart(dados);
    }
    if endTime.None? {
      endTime := DetectBurnEnd(dados);
    }
    var tempos, newtons, kgf := FilterWindow(dados, startTime, endTime);
    var duracao := Span(tempos);
    var duration := if startTime.Some? && endTime.Some? then Some(endTime.value - startTime.value) else None;
    return Some(BurnResult(
      Filtered(tempos, newtons, kgf, duracao, |tempos|), dados,
      startTime, endTime, duration, session.value.savedStart.Some?));
  }

  lemma PickStep<T>(xs: seq<T>, mask: seq<bool>, i: nat)
    requires |mask| == |xs| && i < |xs|
    ensures Pick(xs[..i + 1], mask[..i + 1]) == Pick(xs[..i], mask[..i]) + (if mask[i] then [xs[i]] else [])
  {
    assert xs[..i + 1][..i] == xs[..i];
    assert mask[..i + 1][..i] == mask[..i];
  }

  /** The filtering loop of `aplicarPontosDeQueima`. */
  method FilterWindow(dados: Samples, startTime: Option<real>, endTime: Option<real>)
    returns (tempos: seq<real>, newtons: seq<real>, kgf: seq<real>)
    requires Wf(dados)
    ensures tempos == Pick(dados.tempos, WindowMask(dados.tempos, startTime, endTime))
    ensures newtons == Pick(dados.newtons, WindowMask(dados.tempos, startTime, endTime))
    ensures kgf == Pick(KgfValues(dados), KgfMask(dados, startTime, endTime))
  {
    ghost var mask := WindowMask(dados.tempos, startTime, endTime);
    ghost var kmask := KgfMask(dados, startTime, endTime);
    ghost var kv := KgfValues(dados);
    tempos, newtons, kgf := [], [], [];
    var i := 0;
    while i < |dados.tempos|
      invariant 0 <= i <= |dados.tempos|
      invariant tempos == Pick(dados.tempos[..i], mask[..i])
      invariant newtons == Pick(dados.newtons[..i], mask[..i])
      invariant kgf == Pick(kv[..i], kmask[..i])
      decreases |dados.tempos| - i
    {
      PickStep(dados.tempos, mask, i);
      PickStep(dados.newtons, mask, i);
      PickStep(kv, kmask, i);
      if startTime.Some? && endTime.Some? && dados.tempos[i] >= startTime.value && dados.tempos[i] <= endTime.value {
        tempos := tempos + [dados.tempos[i]];
        newtons := newtons + [dados.newtons[i]];
        if dados.kgf[i].Some? {
          kgf := kgf + [dados.kgf[i].value];
        }
      }
      i := i + 1;
    }
    assert dados.tempos[..i] == dados.tempos;
    assert dados.newtons[..i] == dados.newtons;
    assert kv[..i] == kv;
    assert mask[..i] == mask;
    assert kmask[..i] == kmask;
  }

  /** Every filtered time lies in the window, and every sample of the window is kept, paired with its own force. */
  lemma FilterIsWindow(d: Samples, s: Option<real>, e: Option<real>)
    requires Wf(d)
    ensures var mask := WindowMask(d.tempos, s, e);
      var ts := Pick(d.tempos, mask);
      var ns := Pick(d.newtons, mask);
      |ts| == |ns| &&
      (forall k :: 0 <= k < |ts| ==> (InWindow(ts[k], s, e) &&
        ts[k] == d.tempos[Indices(mask)[k]] && ns[k] == d.newtons[Indices(mask)[k]])) &&
      (forall i :: 0 <= i < |d.tempos| && InWindow(d.tempos[i], s, e) ==> i in Indices(mask))
  {
    var mask := WindowMask(d.tempos, s, e);
    forall k | 0 <= k < |Indices(mask)|
      ensures Pick(d.tempos, mask)[k] == d.tempos[Indices(mask)[k]]
      ensures Pick(d.newtons, mask)[k] == d.newtons[Indices(mask)[k]]
    {
      PickAt(d.tempos, mask, k);
      PickAt(d.newtons, mask, k);
    }
    forall i | 0 <= i < |d.tempos| && InWindow(d.tempos[i], s, e)
      ensures i in Indices(mask)
    {
      IndicesComplete(mask, i);
    }
  }

  /** A window that covers the whole recording keeps every sample. */
  lemma WholeRecordingKept(d: Samples, s: real, e: real)
    requires Wf(d) && forall i :: 0 <= i < |d.tempos| ==> s <= d.tempos[i] <= e
    ensures Pick(d.tempos, WindowMask(d.tempos, Some(s), Some(e))) == d.tempos
    ensures Pick(d.newtons, WindowMask(d.tempos, Some(s), Some(e))) == d.newtons
  {
    PickAll(d.tempos, WindowMask(d.tempos, Some(s), Some(e)));
    PickAll(d.newtons, WindowMask(d.tempos, Some(s), Some(e)));
  }

  // ---------------------------------------------------------------------------
  // The analysis modal

  /**
   * The modal reads saved points with `||`, so a saved 0 is replaced by
   * detection; the filter reads them with null/undefined checks.
   */
  function ModalPoint(saved: Option<real>, detected: Option<real>): (r: Option<real>)
    ensures r == saved || r == detected
    ensures saved.Some? && saved.value != 0.0 ==> r == saved
    ensures saved.None? || saved == Some(0.0) ==> r == detected
  {
    if saved.Some? && saved.value != 0.0 then saved else detected
  }

  /** The modal and the filter agree on a saved point unless it is exactly 0 and detection says otherwise. */
  lemma ModalDiffersOnlyAtZero(saved: Option<real>, detected: Option<real>)
    ensures ModalPoint(saved, detected) != SavedOr(saved, detected) <==>
      saved == Some(0.0) && detected != Some(0.0)
  {
  }

  /** `Math.abs(c - t)` on a JavaScript number. */
  function Distance(c: real, t: JsNum): JsNum {
    match t
    case Num(r) => Num(if c >= r then c - r else r - c)
    case NaN => NaN
    case Infinity(_) => Infinity(false)
  }

  /** `a < b` on JavaScript numbers. */
  predicate Less(a: JsNum, b: JsNum) {
    match (a, b)
    case (Num(x), Num(y)) => x < y
    case (Num(_), Infinity(nb)) => !nb
    case (Infinity(na), Num(_)) => na
    case (Infinity(na), Infinity(nb)) => na && !nb
    case _ => false
  }

  /** The click rule: the strictly closer endpoint moves to the clicked time; on a tie the end moves. */
  function Click(s: JsNum, e: JsNum, c: real): (r: (JsNum, JsNum))
    ensures r.0 == Num(c) || r.1 == Num(c)
    ensures r.0 == s || r.1 == e
  {
    if Less(Distance(c, s), Distance(c, e)) then (Num(c), e) else (s, Num(c))
  }

  /** Clicking the same point twice is the same as clicking it once. */
  lemma ClickIdempotent(s: JsNum, e: JsNum, c: real)
    ensures var (s1, e1) := Click(s, e, c); Click(s1, e1, c) == (s1, e1)
  {
  }

  /** On finite endpoints, a click moves the start exactly when it is strictly closer to the start. */
  lemma ClickMovesCloser(s: real, e: real, c: real)
    ensures var (s1, e1) := Click(Num(s), Num(e), c);
      var ds := if c >= s then c - s else s - c;
      var de := if c >= e then c - e else e - c;
      (ds < de ==> s1 == Num(c) && e1 == Num(e)) && (ds >= de ==> s1 == Num(s) && e1 == Num(c))
  {
  }

  class BurnEditor {
    /** `currentBurnSession !== null`. */
    var loaded: bool
    /** `burnStartTime`/`burnEndTime`; None is null. */
    var burnStartTime: Option<JsNum>
    var burnEndTime: Option<JsNum>

    predicate Valid()
      reads this
    {
      loaded ==> burnStartTime.Some? && burnEndTime.Some?
    }

    constructor ()
      ensures Valid() && !loaded && burnStartTime == None && burnEndTime == None
    {
      loaded := false;
      burnStartTime := None;
      burnEndTime := None;
    }

    /** Opening the modal on a session: saved points read with `||`, the rest detected. Empty recordings are refused. */
    method Open(session: Session)
      requires Valid()
      requires session.dadosTabela.Some? ==> Wf(session.dadosTabela.value)
      modifies this
      ensures Valid()
      ensures session.dadosTabela.None? || |session.dadosTabela.value.tempos| == 0 ==>
        loaded == old(loaded) && burnStartTime == old(burnStartTime) && burnEndTime == old(burnEndTime)
      ensures session.dadosTabela.Some? && |session.dadosTabela.value.tempos| > 0 ==>
        var d := session.dadosTabela.value;
        loaded &&
        burnStartTime == Some(Num(ModalPoint(session.savedStart, BurnStart(d)).value)) &&
        burnEndTime == Some(Num(ModalPoint(session.savedEnd, BurnEnd(d)).value))
    {
      if session.dadosTabela.None? || |session.dadosTabela.value.tempos| == 0 {
        return;
      }
      var d := session.dadosTabela.value;
      var s := session.savedStart;
      if s.None? || s.value == 0.0 {
        s := DetectBurnStart(d);
      }
      var e := session.savedEnd;
      if e.None? || e.value == 0.0 {
        e := DetectBurnEnd(d);
      }
      loaded := true;
      burnStartTime := Some(Num(s.value));
      burnEndTime := Some(Num(e.value));
    }

    /** `fecharModalBurnAnalysis`. */
    method Close()
      modifies this
      ensures Valid() && !loaded && burnStartTime == None && burnEndTime == None
    {
      loaded := false;
      burnStartTime := None;
      burnEndTime := None;
    }

    /** A click on the chart, which exists only while the modal is open. */
    method OnChartClick(clickedTime: real)
      requires Valid() && loaded
      modifies this
      ensures Valid() && loaded
      ensures (burnStartTime.value, burnEndTime.value) ==
        Click(old(burnStartTime).value, old(burnEndTime).value, clickedTime)
    {
      var distStart := Distance(clickedTime, burnStartTime.value);
      var distEnd := Distance(clickedTime, burnEndTime.value);
      if Less(distStart, distEnd) {
        burnStartTime := Some(Num(clickedTime));
      } else {
        burnEndTime := Some(Num(clickedTime));
      }
    }

    /** The start-time input: a numeric entry replaces the start while a session is loaded; anything else is ignored. */
    method OnStartInput(text: string)
      requires Valid()
      modifies this
      ensures Valid() && loaded == old(loaded) && burnEndTime == old(burnEndTime)
      ensures burnStartTime == if !ParseFloat(text).NaN? && loaded then Some(ParseFloat(text)) else old(burnStartTime)
    {
      var newValue := ParseFloat(text);
      if !newValue.NaN? && loaded {
        burnStartTime := Some(newValue);
      }
    }

    /** The end-time input, likewise. */
    method OnEndInput(text: string)
      requires Valid()
      modifies this
      ensures Valid() && loaded == old(loaded) && burnStartTime == old(burnStartTime)
      ensures burnEndTime == if !ParseFloat(text).NaN? && loaded then Some(ParseFloat(text)) else old(burnEndTime)
    {
      var newValue := ParseFloat(text);
      if !newValue.NaN? && loaded {
        burnEndTime := Some(newValue);
      }
    }
  }
}
